/**
 * `Array.prototype.sort` as the application uses it: the default order on
 * strings (by character), a comparator on a string key, and a numeric
 * comparator for descending counts. The sort is stable, as JavaScript's is.
 */
module Sorting {
  import opened Text

  /** `s` is in ascending order of `key` under the character-by-character string order. */
  ghost predicate SortedBy<T>(s: seq<T>, key: T -> string) {
    forall i, j | 0 <= i < j < |s| :: LexLe(key(s[i]), key(s[j]))
  }

  /** Inserts `x` before the first element whose key is not smaller than its own. */
  function InsertBy<T>(x: T, s: seq<T>, key: T -> string): (r: seq<T>)
    ensures multiset(r) == multiset(s) + multiset{x}
  {
    if s == [] || LexLe(key(x), key(s[0])) then [x] + s
    else
      assert s == [s[0]] + s[1..];
      [s[0]] + InsertBy(x, s[1..], key)
  }

  lemma {:induction false} InsertBySorted<T>(x: T, s: seq<T>, key: T -> string)
    requires SortedBy(s, key)
    ensures SortedBy(InsertBy(x, s, key), key)
  {
    var r := InsertBy(x, s, key);
    if s == [] {
    } else if LexLe(key(x), key(s[0])) {
      forall i, j | 0 <= i < j < |r| ensures LexLe(key(r[i]), key(r[j])) {
        if i == 0 && j > 1 {
          LexLeTransitive(key(x), key(s[0]), key(s[j - 1]));
        }
      }
    } else {
      var tail := InsertBy(x, s[1..], key);
      InsertBySorted(x, s[1..], key);
      LexLeTotal(key(x), key(s[0]));
      forall j | 0 <= j < |tail| ensures LexLe(key(s[0]), key(tail[j])) {
        assert tail[j] in multiset(tail);
        assert tail[j] == x || tail[j] in s[1..];
      }
    }
  }

  /** A stable sort on `key`: sorted, and a permutation of the input. */
  function SortBy<T>(s: seq<T>, key: T -> string): (r: seq<T>)
    ensures SortedBy(r, key)
    ensures multiset(r) == multiset(s)
  {
    if s == [] then []
    else
      assert s == [s[0]] + s[1..];
      InsertBySorted(s[0], SortBy(s[1..], key), key);
      InsertBy(s[0], SortBy(s[1..], key), key)
  }

  /** The elements of `s` whose key is `k`, in their order in `s`. */
  function WithKey<T>(s: seq<T>, key: T -> string, k: string): seq<T> {
    if s == [] then [] else (if key(s[0]) == k then [s[0]] else []) + WithKey(s[1..], key, k)
  }

  /** Inserting `x` puts it in front of every element with the same key, and moves no other one among those. */
  lemma {:induction false} InsertByKeeps<T>(x: T, s: seq<T>, key: T -> string, k: string)
    ensures WithKey(InsertBy(x, s, key), key, k) == (if key(x) == k then [x] else []) + WithKey(s, key, k)
  {
    var r := InsertBy(x, s, key);
    if s == [] || LexLe(key(x), key(s[0])) {
      assert r[0] == x && r[1..] == s;
    } else {
      LexLeReflexive(key(x));
      var ins := InsertBy(x, s[1..], key);
      assert r[0] == s[0] && r[1..] == ins;
      InsertByKeeps(x, s[1..], key, k);
      var rest := WithKey(s[1..], key, k);
      if key(s[0]) == k {
        assert WithKey(r, key, k) == [s[0]] + rest;
      } else if key(x) == k {
        assert WithKey(r, key, k) == [x] + rest;
      } else {
        assert WithKey(r, key, k) == rest;
      }
    }
  }

  /** `SortBy` is stable: the elements sharing a key keep their relative order. */
  lemma {:induction false} SortByStable<T>(s: seq<T>, key: T -> string, k: string)
    ensures WithKey(SortBy(s, key), key, k) == WithKey(s, key, k)
  {
    if s != [] {
      SortByStable(s[1..], key, k);
      InsertByKeeps(s[0], SortBy(s[1..], key), key, k);
    }
  }

  function Identity(s: string): string {
    s
  }

  /** `names.sort()`: the strings in character-by-character order. */
  function SortStrings(names: seq<string>): (r: seq<string>)
    ensures SortedBy(r, Identity)
    ensures multiset(r) == multiset(names)
  {
    SortBy(names, Identity)
  }

  /** A permutation of a duplicate-free sequence is duplicate-free. */
  lemma SortedDistinct(s: seq<string>, r: seq<string>)
    requires multiset(r) == multiset(s)
    requires forall i, j | 0 <= i < j < |s| :: s[i] != s[j]
    ensures forall i, j | 0 <= i < j < |r| :: r[i] != r[j]
  {
    forall i, j | 0 <= i < j < |r| ensures r[i] != r[j] {
      DistinctCount(s, r[i]);
      Repeated(r, i, j);
    }
  }

  lemma Repeated(r: seq<string>, i: nat, j: nat)
    requires i < j < |r|
    ensures r[i] == r[j] ==> multiset(r)[r[i]] >= 2
  {
    if r[i] == r[j] {
      assert r == r[..i] + [r[i]] + r[i + 1..j] + [r[j]] + r[j + 1..];
    }
  }

  lemma {:induction false} DistinctCount(s: seq<string>, x: string)
    requires forall i, j | 0 <= i < j < |s| :: s[i] != s[j]
    ensures multiset(s)[x] <= 1
  {
    if s != [] {
      DistinctCount(s[1..], x);
      assert s == [s[0]] + s[1..];
      if s[0] == x {
        assert x !in s[1..];
      }
    }
  }

  // ---------------------------------------------------------------------
  // Descending numeric key

  /** `s` is in non-increasing order of `rank`. */
  ghost predicate DescendingBy<T>(s: seq<T>, rank: T -> int) {
    forall i, j | 0 <= i < j < |s| :: rank(s[i]) >= rank(s[j])
  }

  /** Inserts `x` before the first element whose rank does not exceed its own. */
  function InsertDescending<T>(x: T, s: seq<T>, rank: T -> int): (r: seq<T>)
    ensures multiset(r) == multiset(s) + multiset{x}
  {
    if s == [] || rank(x) >= rank(s[0]) then [x] + s
    else
      assert s == [s[0]] + s[1..];
      [s[0]] + InsertDescending(x, s[1..], rank)
  }

  lemma {:induction false} InsertDescendingSorted<T>(x: T, s: seq<T>, rank: T -> int)
    requires DescendingBy(s, rank)
    ensures DescendingBy(InsertDescending(x, s, rank), rank)
  {
    if s != [] && rank(x) < rank(s[0]) {
      var tail := InsertDescending(x, s[1..], rank);
      InsertDescendingSorted(x, s[1..], rank);
      forall j | 0 <= j < |tail| ensures rank(s[0]) >= rank(tail[j]) {
        assert tail[j] in multiset(tail);
        assert tail[j] == x || tail[j] in s[1..];
      }
    }
  }

  /** `s.sort((a, b) => rank(b) - rank(a))`: a stable sort on `rank`, largest first. */
  function SortDescending<T>(s: seq<T>, rank: T -> int): (r: seq<T>)
    ensures DescendingBy(r, rank)
    ensures multiset(r) == multiset(s)
  {
    if s == [] then []
    else
      assert s == [s[0]] + s[1..];
      InsertDescendingSorted(s[0], SortDescending(s[1..], rank), rank);
      InsertDescending(s[0], SortDescending(s[1..], rank), rank)
  }

  /** The elements of `s` whose rank is `n`, in their order in `s`. */
  function WithRank<T>(s: seq<T>, rank: T -> int, n: int): seq<T> {
    if s == [] then [] else (if rank(s[0]) == n then [s[0]] else []) + WithRank(s[1..], rank, n)
  }

  /** Inserting `x` puts it in front of every element with the same rank, and moves no other one among those. */
  lemma {:induction false} InsertDescendingKeeps<T>(x: T, s: seq<T>, rank: T -> int, n: int)
    ensures WithRank(InsertDescending(x, s, rank), rank, n) == (if rank(x) == n then [x] else []) + WithRank(s, rank, n)
  {
    var r := InsertDescending(x, s, rank);
    if s == [] || rank(x) >= rank(s[0]) {
      assert r[0] == x && r[1..] == s;
    } else {
      var ins := InsertDescending(x, s[1..], rank);
      assert r[0] == s[0] && r[1..] == ins;
      InsertDescendingKeeps(x, s[1..], rank, n);
      var rest := WithRank(s[1..], rank, n);
      if rank(s[0]) == n {
        assert WithRank(r, rank, n) == [s[0]] + rest;
      } else if rank(x) == n {
        assert WithRank(r, rank, n) == [x] + rest;
      } else {
        assert WithRank(r, rank, n) == rest;
      }
    }
  }

  /** `SortDescending` is stable: the elements sharing a rank keep their relative order. */
  lemma {:induction false} SortDescendingStable<T>(s: seq<T>, rank: T -> int, n: int)
    ensures WithRank(SortDescending(s, rank), rank, n) == WithRank(s, rank, n)
  {
    if s != [] {
      SortDescendingStable(s[1..], rank, n);
      InsertDescendingKeeps(s[0], SortDescending(s[1..], rank), rank, n);
    }
  }

  // ---------------------------------------------------------------------
  // Greatest string

  /** `xs.sort().reverse()[0]`: the greatest string of a non-empty list. */
  function LexMax(xs: seq<string>): (m: string)
    requires xs != []
    ensures m in xs
    ensures forall i | 0 <= i < |xs| :: LexLe(xs[i], m)
  {
    if |xs| == 1 then
      LexLeReflexive(xs[0]);
      xs[0]
    else
      var m := LexMax(xs[1..]);
      LexLeTotal(xs[0], m);
      if LexLe(xs[0], m) then m
      else
        assert forall i | 1 <= i < |xs| :: LexLe(xs[i], xs[0]) by {
          forall i | 1 <= i < |xs| ensures LexLe(xs[i], xs[0]) {
            assert xs[i] == xs[1..][i - 1];
            LexLeTransitive(xs[i], m, xs[0]);
          }
        }
        LexLeReflexive(xs[0]);
        xs[0]
  }

  lemma {:induction false} LexLeReflexive(a: string)
    ensures LexLe(a, a)
    decreases |a|
  {
    if a != [] {
      LexLeReflexive(a[1..]);
    }
  }
}
