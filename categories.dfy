/**
 * Spending per category: `getCategorySpending` folds the user's expense rows
 * of a date range into one entry per category, adding each amount to the
 * entry's `usd` or `cop` total.
 *
 * The query (expense type, date range, non-null `category_id`) is I/O: the
 * model receives the rows it returned, each with its joined `categories`
 * record, which may be missing.
 */
module Categories {
  import opened Wrappers

  /** The joined `categories(name, color)` record. */
  datatype CategoryInfo = CategoryInfo(name: string, color: string)

  /** A row of the query: `category_id, amount, currency` and the joined category, if any. */
  datatype SpendingRow = SpendingRow(categoryId: string, amount: real, currency: string, category: Option<CategoryInfo>)

  /** A value of the aggregation map, together with the key it is stored under. */
  datatype Entry = Entry(key: string, name: string, color: string, usd: real, cop: real)

  /** An element of the returned array: the map's value, without its key. */
  datatype Spending = Spending(name: string, color: string, usd: real, cop: real)

  // ---------------------------------------------------------------------
  // The aggregation loop

  /** The position of the entry stored under `key`, or -1. */
  function Find(es: seq<Entry>, key: string): (k: int)
    ensures -1 <= k < |es|
    ensures k >= 0 ==> es[k].key == key
    ensures k < 0 ==> forall j | 0 <= j < |es| :: es[j].key != key
  {
    if es == [] then -1
    else
      var k := Find(es[..|es| - 1], key);
      if k >= 0 then k else if es[|es| - 1].key == key then |es| - 1 else -1
  }

  /** The entry a new category starts with: this row's name and color, nothing spent. */
  function Opened(r: SpendingRow): Entry
    requires r.category.Some?
  {
    Entry(r.categoryId, r.category.value.name, r.category.value.color, 0.0, 0.0)
  }

  /** A row's amount added to its entry: to `usd` for `USD`, to `cop` for every other currency. */
  function Credited(e: Entry, r: SpendingRow): Entry {
    if r.currency == "USD" then e.(usd := e.usd + r.amount) else e.(cop := e.cop + r.amount)
  }

  /** One pass of the `forEach`. */
  function Visited(es: seq<Entry>, r: SpendingRow): seq<Entry> {
    if r.category.None? then es
    else
      var es1 := if Find(es, r.categoryId) >= 0 then es else es + [Opened(r)];
      var k := Find(es1, r.categoryId);
      if k >= 0 then es1[k := Credited(es1[k], r)] else es1
  }

  /** The aggregation map after the loop has seen `rows`, in insertion order. */
  function Aggregated(rows: seq<SpendingRow>): seq<Entry> {
    if rows == [] then [] else Visited(Aggregated(rows[..|rows| - 1]), rows[|rows| - 1])
  }

  lemma AggregatedStep(rows: seq<SpendingRow>, i: nat)
    requires i < |rows|
    ensures Aggregated(rows[..i + 1]) == Visited(Aggregated(rows[..i]), rows[i])
  {
    assert rows[..i + 1][..i] == rows[..i];
  }

  /** The two writes of one counted row, as the loop performs them. */
  lemma VisitedSteps(es: seq<Entry>, r: SpendingRow, es1: seq<Entry>)
    requires r.category.Some?
    requires es1 == if Find(es, r.categoryId) >= 0 then es else es + [Opened(r)]
    ensures Find(es1, r.categoryId) >= 0
    ensures var k := Find(es1, r.categoryId); Visited(es, r) == es1[k := Credited(es1[k], r)]
  {
    if Find(es, r.categoryId) < 0 {
      FindAppend(es, Opened(r), r.categoryId);
    }
  }

  /** The array `Array.from(categoryMap.values())`. */
  function Values(es: seq<Entry>): (vs: seq<Spending>)
    ensures |vs| == |es|
    ensures forall k | 0 <= k < |es| :: vs[k] == Spending(es[k].name, es[k].color, es[k].usd, es[k].cop)
  {
    seq(|es|, k requires 0 <= k < |es| => Spending(es[k].name, es[k].color, es[k].usd, es[k].cop))
  }

  /** What `getCategorySpending` returns for the rows the query returned. */
  function CategorySpending(rows: seq<SpendingRow>): seq<Spending> {
    Values(Aggregated(rows))
  }

  /** `getCategorySpending`'s loop over the rows, then the map's values. */
  method GetCategorySpending(rows: seq<SpendingRow>) returns (r: seq<Spending>)
    ensures r == CategorySpending(rows)
  {
    var entries: seq<Entry> := [];
    for i := 0 to |rows|
      invariant entries == Aggregated(rows[..i])
    {
      AggregatedStep(rows, i);
      entries := VisitRow(entries, rows[i]);
    }
    assert rows[..|rows|] == rows;
    r := Values(entries);
  }

  /** The body of the `forEach`: skip a row without a category, else open its entry if needed and credit it. */
  method VisitRow(entries: seq<Entry>, t: SpendingRow) returns (next: seq<Entry>)
    ensures next == Visited(entries, t)
  {
    next := entries;
    if t.category.None? {
      return;
    }
    var key := t.categoryId;
    if Find(next, key) < 0 {
      next := next + [Entry(key, t.category.value.name, t.category.value.color, 0.0, 0.0)];
    }
    VisitedSteps(entries, t, next);
    var k := Find(next, key);
    var category := next[k];
    if t.currency == "USD" {
      category := category.(usd := category.usd + t.amount);
    } else {
      category := category.(cop := category.cop + t.amount);
    }
    assert category == Credited(next[k], t);
    next := next[k := category];
  }

  // ---------------------------------------------------------------------
  // What an entry holds

  /** The counted rows of category `key`: those with a joined category record, in input order. */
  function Members(rows: seq<SpendingRow>, key: string): (ms: seq<SpendingRow>)
    ensures forall i | 0 <= i < |ms| :: ms[i].category.Some? && ms[i].categoryId == key
  {
    if rows == [] then []
    else
      var r := rows[|rows| - 1];
      Members(rows[..|rows| - 1], key) + (if r.category.Some? && r.categoryId == key then [r] else [])
  }

  /** The total amount of the rows in `USD`. */
  function UsdTotal(ms: seq<SpendingRow>): real {
    if ms == [] then 0.0
    else UsdTotal(ms[..|ms| - 1]) + (if ms[|ms| - 1].currency == "USD" then ms[|ms| - 1].amount else 0.0)
  }

  /** The total amount of the rows in any other currency. */
  function CopTotal(ms: seq<SpendingRow>): real {
    if ms == [] then 0.0
    else CopTotal(ms[..|ms| - 1]) + (if ms[|ms| - 1].currency == "USD" then 0.0 else ms[|ms| - 1].amount)
  }

  /** The entry `e` after the loop has credited each of `ms` to it, in order. */
  function Credits(e: Entry, ms: seq<SpendingRow>): Entry {
    if ms == [] then e else Credited(Credits(e, ms[..|ms| - 1]), ms[|ms| - 1])
  }

  /** The entry of category `key`, stated from its rows: opened by the first, credited with all. */
  function EntryFor(rows: seq<SpendingRow>, key: string): Entry
    requires Members(rows, key) != []
  {
    var ms := Members(rows, key);
    Credits(Opened(ms[0]), ms)
  }

  lemma MembersStep(rows: seq<SpendingRow>, r: SpendingRow, key: string)
    ensures Members(rows + [r], key) == Members(rows, key) + (if r.category.Some? && r.categoryId == key then [r] else [])
  {
    assert (rows + [r])[..|rows|] == rows;
  }

  /** Crediting rows keeps the key, name and color, and adds the `USD` amounts to `usd` and the rest to `cop`. */
  lemma {:induction false} CreditsTotals(e: Entry, ms: seq<SpendingRow>)
    ensures Credits(e, ms) == e.(usd := e.usd + UsdTotal(ms), cop := e.cop + CopTotal(ms))
  {
    if ms != [] {
      CreditsTotals(e, ms[..|ms| - 1]);
    }
  }

  /** Crediting a counted row to its category's entry gives the entry of the longer input. */
  lemma EntryForStep(rows: seq<SpendingRow>, r: SpendingRow)
    requires r.category.Some? && Members(rows, r.categoryId) != []
    ensures EntryFor(rows + [r], r.categoryId) == Credited(EntryFor(rows, r.categoryId), r)
  {
    var ms := Members(rows, r.categoryId);
    MembersStep(rows, r, r.categoryId);
    assert (ms + [r])[..|ms|] == ms;
  }

  /** The first counted row of a category gives the entry it opens, credited with that row. */
  lemma EntryForFirst(rows: seq<SpendingRow>, r: SpendingRow)
    requires r.category.Some? && Members(rows, r.categoryId) == []
    ensures EntryFor(rows + [r], r.categoryId) == Credited(Opened(r), r)
  {
    MembersStep(rows, r, r.categoryId);
    assert Members(rows + [r], r.categoryId) == [r];
    assert [r][..0] == [];
    assert Credits(Opened(r), [r]) == Credited(Credits(Opened(r), []), r);
  }

  lemma EntryForOther(rows: seq<SpendingRow>, r: SpendingRow, key: string)
    requires (r.category.None? || key != r.categoryId) && Members(rows, key) != []
    ensures Members(rows + [r], key) == Members(rows, key)
    ensures EntryFor(rows + [r], key) == EntryFor(rows, key)
  {
    MembersStep(rows, r, key);
  }

  predicate DistinctKeys(es: seq<Entry>) {
    forall i, j | 0 <= i < j < |es| :: es[i].key != es[j].key
  }

  /** `es` is the aggregation of `rows`: one entry per category with a counted row, each stated from its rows. */
  ghost predicate Aggregates(es: seq<Entry>, rows: seq<SpendingRow>) {
    && DistinctKeys(es)
    && (forall k | 0 <= k < |es| :: Members(rows, es[k].key) != [] && es[k] == EntryFor(rows, es[k].key))
    && (forall key :: Members(rows, key) != [] <==> Find(es, key) >= 0)
  }

  lemma FindAppend(es: seq<Entry>, e: Entry, key: string)
    ensures Find(es + [e], key) == if Find(es, key) >= 0 then Find(es, key) else if e.key == key then |es| else -1
  {
    assert (es + [e])[..|es|] == es;
  }

  lemma FindUpdate(es: seq<Entry>, k: nat, e: Entry, key: string)
    requires k < |es| && e.key == es[k].key
    ensures Find(es[k := e], key) >= 0 <==> Find(es, key) >= 0
  {
    var us := es[k := e];
    if Find(es, key) >= 0 {
      assert us[Find(es, key)].key == key;
    }
    if Find(us, key) >= 0 {
      assert es[Find(us, key)].key == key;
    }
  }

  /** A row without a category record changes nothing. */
  lemma SkippedKeeps(es: seq<Entry>, rows: seq<SpendingRow>, r: SpendingRow)
    requires Aggregates(es, rows) && r.category.None?
    ensures Aggregates(Visited(es, r), rows + [r])
  {
    forall k | 0 <= k < |es| ensures Members(rows + [r], es[k].key) != [] && es[k] == EntryFor(rows + [r], es[k].key) {
      EntryForOther(rows, r, es[k].key);
    }
    forall key ensures Members(rows + [r], key) != [] <==> Find(es, key) >= 0 {
      MembersStep(rows, r, key);
    }
  }

  /** A row of a category that has an entry is credited to that entry. */
  lemma CreditedKeeps(es: seq<Entry>, rows: seq<SpendingRow>, r: SpendingRow)
    requires Aggregates(es, rows) && r.category.Some? && Find(es, r.categoryId) >= 0
    ensures Aggregates(Visited(es, r), rows + [r])
  {
    var k := Find(es, r.categoryId);
    var es1 := es[k := Credited(es[k], r)];
    assert Visited(es, r) == es1;
    CreditedEntries(es, rows, r, k, es1);
    CreditedCovers(es, rows, r, k, es1);
  }

  lemma CreditedEntries(es: seq<Entry>, rows: seq<SpendingRow>, r: SpendingRow, k: nat, es1: seq<Entry>)
    requires Aggregates(es, rows) && r.category.Some? && k == Find(es, r.categoryId) && es1 == es[k := Credited(es[k], r)]
    ensures DistinctKeys(es1)
    ensures forall j | 0 <= j < |es1| :: Members(rows + [r], es1[j].key) != [] && es1[j] == EntryFor(rows + [r], es1[j].key)
  {
    EntryForStep(rows, r);
    forall j | 0 <= j < |es1| ensures Members(rows + [r], es1[j].key) != [] && es1[j] == EntryFor(rows + [r], es1[j].key) {
      if j != k {
        assert es[j].key != r.categoryId;
        EntryForOther(rows, r, es[j].key);
      }
    }
    forall i, j | 0 <= i < j < |es1| ensures es1[i].key != es1[j].key {
      assert es1[i].key == es[i].key && es1[j].key == es[j].key;
    }
  }

  lemma CreditedCovers(es: seq<Entry>, rows: seq<SpendingRow>, r: SpendingRow, k: nat, es1: seq<Entry>)
    requires Aggregates(es, rows) && r.category.Some? && k == Find(es, r.categoryId) && es1 == es[k := Credited(es[k], r)]
    ensures forall key :: Members(rows + [r], key) != [] <==> Find(es1, key) >= 0
  {
    forall key ensures Members(rows + [r], key) != [] <==> Find(es1, key) >= 0 {
      MembersStep(rows, r, key);
      FindUpdate(es, k, Credited(es[k], r), key);
    }
  }

  /** A row of a new category opens its entry, credited with that row. */
  lemma OpenedKeeps(es: seq<Entry>, rows: seq<SpendingRow>, r: SpendingRow)
    requires Aggregates(es, rows) && r.category.Some? && Find(es, r.categoryId) < 0
    ensures Aggregates(Visited(es, r), rows + [r])
  {
    var e := Credited(Opened(r), r);
    VisitedSteps(es, r, es + [Opened(r)]);
    FindAppend(es, Opened(r), r.categoryId);
    assert Visited(es, r) == es + [e];
    OpenedEntries(es, rows, r, es + [e]);
    OpenedCovers(es, rows, r, es + [e]);
  }

  lemma OpenedEntries(es: seq<Entry>, rows: seq<SpendingRow>, r: SpendingRow, es1: seq<Entry>)
    requires Aggregates(es, rows) && r.category.Some? && Find(es, r.categoryId) < 0 && es1 == es + [Credited(Opened(r), r)]
    ensures DistinctKeys(es1)
    ensures forall k | 0 <= k < |es1| :: Members(rows + [r], es1[k].key) != [] && es1[k] == EntryFor(rows + [r], es1[k].key)
  {
    EntryForFirst(rows, r);
    MembersStep(rows, r, r.categoryId);
    forall j | 0 <= j < |es| ensures Members(rows + [r], es[j].key) != [] && es[j] == EntryFor(rows + [r], es[j].key) {
      EntryForOther(rows, r, es[j].key);
    }
    assert es1[|es|] == EntryFor(rows + [r], r.categoryId);
  }

  lemma OpenedCovers(es: seq<Entry>, rows: seq<SpendingRow>, r: SpendingRow, es1: seq<Entry>)
    requires Aggregates(es, rows) && r.category.Some? && Find(es, r.categoryId) < 0 && es1 == es + [Credited(Opened(r), r)]
    ensures forall key :: Members(rows + [r], key) != [] <==> Find(es1, key) >= 0
  {
    forall key ensures Members(rows + [r], key) != [] <==> Find(es1, key) >= 0 {
      MembersStep(rows, r, key);
      FindAppend(es, Credited(Opened(r), r), key);
    }
  }

  /**
   * The loop keeps one entry per category that has a counted row, no two with the same key; each
   * entry carries its first row's name and color, the sum of its `USD` amounts and the sum of the rest.
   */
  lemma {:induction false} AggregatedAggregates(rows: seq<SpendingRow>)
    ensures Aggregates(Aggregated(rows), rows)
  {
    if rows != [] {
      var init := rows[..|rows| - 1];
      var r := rows[|rows| - 1];
      assert init + [r] == rows;
      AggregatedAggregates(init);
      var es := Aggregated(init);
      if r.category.None? {
        SkippedKeeps(es, init, r);
      } else if Find(es, r.categoryId) >= 0 {
        CreditedKeeps(es, init, r);
      } else {
        OpenedKeeps(es, init, r);
      }
    }
  }

  /**
   * The returned array, read through the map's keys: one element per category with a counted row,
   * each element that category's name, color and totals.
   */
  lemma CategorySpendingMeaning(rows: seq<SpendingRow>)
    ensures var es := Aggregated(rows); var r := CategorySpending(rows);
      && |r| == |es|
      && DistinctKeys(es)
      && (forall key :: Members(rows, key) != [] <==> Find(es, key) >= 0)
      && (forall k | 0 <= k < |r| ::
            var ms := Members(rows, es[k].key);
            && ms != []
            && r[k] == Spending(ms[0].category.value.name, ms[0].category.value.color, UsdTotal(ms), CopTotal(ms)))
  {
    var es := Aggregated(rows);
    AggregatedAggregates(rows);
    forall k | 0 <= k < |es|
      ensures var ms := Members(rows, es[k].key); ms != [] && es[k] == Opened(ms[0]).(usd := UsdTotal(ms), cop := CopTotal(ms))
    {
      var ms := Members(rows, es[k].key);
      CreditsTotals(Opened(ms[0]), ms);
    }
  }

  // ---------------------------------------------------------------------
  // Nothing is lost or counted twice

  /** The sum of `usd + cop` over the entries. */
  function Total(es: seq<Entry>): real {
    if es == [] then 0.0 else Total(es[..|es| - 1]) + es[|es| - 1].usd + es[|es| - 1].cop
  }

  /** The sum of the amounts of the rows that have a category record. */
  function CountedAmount(rows: seq<SpendingRow>): real {
    if rows == [] then 0.0
    else CountedAmount(rows[..|rows| - 1]) + (if rows[|rows| - 1].category.Some? then rows[|rows| - 1].amount else 0.0)
  }

  lemma {:induction false} TotalUpdate(es: seq<Entry>, k: nat, e: Entry)
    requires k < |es|
    ensures Total(es[k := e]) - e.usd - e.cop == Total(es) - es[k].usd - es[k].cop
  {
    var us := es[k := e];
    if k < |es| - 1 {
      assert us[..|us| - 1] == es[..|es| - 1][k := e];
      TotalUpdate(es[..|es| - 1], k, e);
    } else {
      assert us[..|us| - 1] == es[..|es| - 1];
    }
  }

  lemma TotalAppend(es: seq<Entry>, e: Entry)
    ensures Total(es + [e]) == Total(es) + e.usd + e.cop
  {
    assert (es + [e])[..|es|] == es;
  }

  /** The sum of `usd + cop` over the returned array. */
  function SpentTotal(vs: seq<Spending>): real {
    if vs == [] then 0.0 else SpentTotal(vs[..|vs| - 1]) + vs[|vs| - 1].usd + vs[|vs| - 1].cop
  }

  lemma {:induction false} ValuesTotal(es: seq<Entry>)
    ensures SpentTotal(Values(es)) == Total(es)
  {
    if es != [] {
      var init := es[..|es| - 1];
      ValuesTotal(init);
      assert Values(es)[..|es| - 1] == Values(init);
    }
  }

  /** `usd + cop` summed over the returned array is the amount of the rows that were counted. */
  lemma SpendingTotal(rows: seq<SpendingRow>)
    ensures SpentTotal(CategorySpending(rows)) == CountedAmount(rows)
  {
    TotalPreserved(rows);
    ValuesTotal(Aggregated(rows));
  }

  /** The totals of the entries add up to the amount of the counted rows. */
  lemma {:induction false} TotalPreserved(rows: seq<SpendingRow>)
    ensures Total(Aggregated(rows)) == CountedAmount(rows)
  {
    if rows != [] {
      var init := rows[..|rows| - 1];
      var r := rows[|rows| - 1];
      TotalPreserved(init);
      var es := Aggregated(init);
      if r.category.Some? {
        var es1 := if Find(es, r.categoryId) >= 0 then es else es + [Opened(r)];
        if Find(es, r.categoryId) < 0 {
          TotalAppend(es, Opened(r));
        }
        VisitedSteps(es, r, es1);
        var k := Find(es1, r.categoryId);
        TotalUpdate(es1, k, Credited(es1[k], r));
      }
    }
  }
}
