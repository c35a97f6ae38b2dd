/**
 * Category suggestion from past entries: every past entry of the same type
 * whose description resembles the new one votes for its category with a
 * weight (exact 10, prefix 5, substring 1), and the category with the
 * strictly greatest total wins, the first one met winning a tie.
 *
 * The query that fetches the past entries (same user and type, with a
 * category, newest first, at most 200) is store I/O: the model receives its
 * result as the sequence `past`, with a failed query modelled as an empty one.
 */
module CategorySuggestions {
  import opened Wrappers
  import opened Text

  /** A past entry as the query returns it: its category id, its description and its category's name. */
  datatype Past = Past(categoryId: string, description: string, categoryName: Option<string>)

  datatype Suggestion = Suggestion(categoryId: string, categoryName: string)

  /** One entry of the tally map: a category, its weighted count and the name it was first seen with. */
  datatype Tally = Tally(id: string, count: nat, name: string)

  /** The scanner's best candidate so far. */
  datatype Pick = Pick(id: string, count: nat, name: string)

  /**
   * How much a past description votes for its category: 10 for an exact match, 5 when either
   * starts with the other, 1 when either contains the other, and 0 (skipped) otherwise.
   */
  function Weight(txDesc: string, desc: string): (w: nat)
    ensures w == 1 || w == 5 || w == 10 || w == 0
  {
    if txDesc == desc then 10
    else if StartsWith(txDesc, desc) || StartsWith(desc, txDesc) then 5
    else if Contains(txDesc, desc) || Contains(desc, txDesc) then 1
    else 0
  }

  /** An entry is skipped exactly when neither description contains the other. */
  lemma WeightMeaning(txDesc: string, desc: string)
    ensures Weight(txDesc, desc) == 10 <==> txDesc == desc
    ensures Weight(txDesc, desc) == 5 <==> txDesc != desc && (StartsWith(txDesc, desc) || StartsWith(desc, txDesc))
    ensures Weight(txDesc, desc) == 0 <==> !Contains(txDesc, desc) && !Contains(desc, txDesc)
  {
    if txDesc == desc {
      ContainsSelf(txDesc);
    } else if StartsWith(txDesc, desc) || StartsWith(desc, txDesc) {
      PrefixContains(txDesc, desc);
    }
  }

  lemma PrefixContains(a: string, b: string)
    requires StartsWith(a, b) || StartsWith(b, a)
    ensures Contains(a, b) || Contains(b, a)
  {
    if StartsWith(a, b) { StartsWithContains(a, b); } else { StartsWithContains(b, a); }
  }

  /** The vote a past entry casts for the description `desc`. */
  datatype Vote = Vote(id: string, weight: nat, name: string)

  function VoteOf(p: Past, desc: string): Vote {
    Vote(p.categoryId, Weight(LowerTrim(p.description), desc), p.categoryName.GetOr(""))
  }

  /** The votes of the past entries, in their order. */
  function Votes(past: seq<Past>, desc: string): (vs: seq<Vote>)
    ensures |vs| == |past|
  {
    if past == [] then [] else Votes(past[..|past| - 1], desc) + [VoteOf(past[|past| - 1], desc)]
  }

  lemma VotesStep(past: seq<Past>, i: nat, desc: string)
    requires i < |past|
    ensures Votes(past[..i + 1], desc) == Votes(past[..i], desc) + [VoteOf(past[i], desc)]
  {
    assert past[..i + 1][..i] == past[..i];
    assert past[..i + 1][i] == past[i];
  }

  /** The position of `id` in the tally, or -1. */
  function Slot(ts: seq<Tally>, id: string): (k: int)
    ensures -1 <= k < |ts|
    ensures k >= 0 ==> ts[k].id == id
    ensures k < 0 ==> forall j | 0 <= j < |ts| :: ts[j].id != id
  {
    if ts == [] then -1
    else
      var k := Slot(ts[..|ts| - 1], id);
      if k >= 0 then k else if ts[|ts| - 1].id == id then |ts| - 1 else -1
  }

  /** One pass of the counting loop: a vote adds its weight to its category, creating the entry when new. */
  function Tallied(ts: seq<Tally>, v: Vote): seq<Tally> {
    if v.weight == 0 then ts
    else
      var k := Slot(ts, v.id);
      if k >= 0 then ts[k := ts[k].(count := ts[k].count + v.weight)]
      else ts + [Tally(v.id, v.weight, v.name)]
  }

  /** The tally map after the counting loop has seen the votes, in insertion order. */
  function Tallies(vs: seq<Vote>): seq<Tally> {
    if vs == [] then [] else Tallied(Tallies(vs[..|vs| - 1]), vs[|vs| - 1])
  }

  /** The reference score of a category: the summed weights of the votes for it. */
  function Score(vs: seq<Vote>, id: string): nat {
    if vs == [] then 0
    else
      var v := vs[|vs| - 1];
      Score(vs[..|vs| - 1], id) + (if v.id == id then v.weight else 0)
  }

  /** The position of the first vote with positive weight for `id`, or -1. */
  function First(vs: seq<Vote>, id: string): (i: int)
    ensures -1 <= i < |vs|
    ensures i >= 0 ==> vs[i].id == id && vs[i].weight > 0
  {
    if vs == [] then -1
    else
      var i := First(vs[..|vs| - 1], id);
      var v := vs[|vs| - 1];
      if i >= 0 then i else if v.id == id && v.weight > 0 then |vs| - 1 else -1
  }

  /** A category scores exactly when some vote for it has a positive weight. */
  lemma {:induction false} ScoreFirst(vs: seq<Vote>, id: string)
    ensures Score(vs, id) > 0 <==> First(vs, id) >= 0
  {
    if vs != [] {
      ScoreFirst(vs[..|vs| - 1], id);
    }
  }

  predicate DistinctIds(ts: seq<Tally>) {
    forall i, j | 0 <= i < j < |ts| :: ts[i].id != ts[j].id
  }

  /**
   * `ts` is the tally of the votes `vs`: one entry per voted-for category, in the order of their
   * first votes; each entry's count is the category's score and its name is the name carried by
   * the first vote.
   */
  ghost predicate Summarizes(ts: seq<Tally>, vs: seq<Vote>) {
    Counted(ts, vs) && Named(ts, vs) && Ordered(ts, vs) && Covered(ts, vs)
  }

  ghost predicate Counted(ts: seq<Tally>, vs: seq<Vote>) {
    && DistinctIds(ts)
    && (forall k | 0 <= k < |ts| :: ts[k].count == Score(vs, ts[k].id) > 0)
  }

  ghost predicate Named(ts: seq<Tally>, vs: seq<Vote>) {
    forall k | 0 <= k < |ts| :: 0 <= First(vs, ts[k].id) && ts[k].name == vs[First(vs, ts[k].id)].name
  }

  ghost predicate Ordered(ts: seq<Tally>, vs: seq<Vote>) {
    forall i, j | 0 <= i < j < |ts| :: First(vs, ts[i].id) < First(vs, ts[j].id)
  }

  ghost predicate Covered(ts: seq<Tally>, vs: seq<Vote>) {
    forall id :: Score(vs, id) > 0 <==> Slot(ts, id) >= 0
  }

  /** Score and first vote after one more vote. */
  lemma Extend(init: seq<Vote>, v: Vote, id: string)
    ensures Score(init + [v], id) == Score(init, id) + (if v.id == id then v.weight else 0)
    ensures First(init + [v], id)
            == if First(init, id) >= 0 then First(init, id) else if v.id == id && v.weight > 0 then |init| else -1
  {
    assert (init + [v])[..|init|] == init;
  }

  /** A category that already scored keeps its first vote. */
  lemma FirstKept(init: seq<Vote>, v: Vote, id: string)
    requires Score(init, id) > 0
    ensures 0 <= First(init + [v], id) == First(init, id) < |init|
    ensures (init + [v])[First(init, id)] == init[First(init, id)]
  {
    ScoreFirst(init, id);
    Extend(init, v, id);
  }

  /** The categories already in the tally keep their first votes. */
  lemma FirstsKept(ts: seq<Tally>, init: seq<Vote>, v: Vote)
    requires Counted(ts, init)
    ensures forall j | 0 <= j < |ts| ::
      && 0 <= First(init + [v], ts[j].id) == First(init, ts[j].id) < |init|
      && (init + [v])[First(init, ts[j].id)] == init[First(init, ts[j].id)]
  {
    forall j | 0 <= j < |ts|
      ensures 0 <= First(init + [v], ts[j].id) == First(init, ts[j].id) < |init|
      ensures (init + [v])[First(init, ts[j].id)] == init[First(init, ts[j].id)]
    {
      FirstKept(init, v, ts[j].id);
    }
  }

  /** A tally with the same ids and names, in the same order, keeps its names and order after one more vote. */
  lemma SameIdsKeep(ts: seq<Tally>, ts1: seq<Tally>, init: seq<Vote>, v: Vote)
    requires Counted(ts, init) && Named(ts, init) && Ordered(ts, init)
    requires |ts1| == |ts| && forall j | 0 <= j < |ts| :: ts1[j].id == ts[j].id && ts1[j].name == ts[j].name
    ensures Named(ts1, init + [v]) && Ordered(ts1, init + [v])
  {
    FirstsKept(ts, init, v);
  }

  /** A vote of weight zero leaves the tally as it is. */
  lemma SkipKeeps(ts: seq<Tally>, init: seq<Vote>, v: Vote)
    requires Summarizes(ts, init) && v.weight == 0
    ensures Summarizes(ts, init + [v])
  {
    forall id ensures Score(init + [v], id) == Score(init, id) {
      Extend(init, v, id);
    }
    SameIdsKeep(ts, ts, init, v);
  }

  /** A vote for a category already in the tally adds its weight to that entry. */
  lemma BumpKeeps(ts: seq<Tally>, init: seq<Vote>, v: Vote)
    requires Summarizes(ts, init) && v.weight > 0 && Slot(ts, v.id) >= 0
    ensures Summarizes(Tallied(ts, v), init + [v])
  {
    var k := Slot(ts, v.id);
    var ts1 := Tallied(ts, v);
    assert ts1 == ts[k := ts[k].(count := ts[k].count + v.weight)] by {
      TalliedBump(ts, v, k, v.id, v.weight);
    }
    BumpCounted(ts, ts1, init, v);
    BumpSameIds(ts, k, v.weight);
    SameIdsKeep(ts, ts1, init, v);
    BumpCovered(ts, ts1, init, v);
  }

  lemma BumpSameIds(ts: seq<Tally>, k: nat, w: nat)
    requires k < |ts|
    ensures var ts1 := ts[k := ts[k].(count := ts[k].count + w)];
      |ts1| == |ts| && forall j | 0 <= j < |ts| :: ts1[j].id == ts[j].id && ts1[j].name == ts[j].name
  {
  }

  lemma BumpCounted(ts: seq<Tally>, ts1: seq<Tally>, init: seq<Vote>, v: Vote)
    requires Counted(ts, init) && v.weight > 0 && Slot(ts, v.id) >= 0
    requires var k := Slot(ts, v.id); ts1 == ts[k := ts[k].(count := ts[k].count + v.weight)]
    ensures Counted(ts1, init + [v])
  {
    var k := Slot(ts, v.id);
    assert DistinctIds(ts1) by {
      forall i, j | 0 <= i < j < |ts1| ensures ts1[i].id != ts1[j].id {
        assert ts1[i].id == ts[i].id && ts1[j].id == ts[j].id;
      }
    }
    forall j | 0 <= j < |ts1| ensures ts1[j].count == Score(init + [v], ts1[j].id) > 0 {
      Extend(init, v, ts[j].id);
      if j != k {
        assert ts[j].id != v.id;
        assert ts1[j] == ts[j];
      }
    }
  }

  lemma BumpCovered(ts: seq<Tally>, ts1: seq<Tally>, init: seq<Vote>, v: Vote)
    requires Covered(ts, init) && v.weight > 0 && Slot(ts, v.id) >= 0
    requires var k := Slot(ts, v.id); ts1 == ts[k := ts[k].(count := ts[k].count + v.weight)]
    ensures Covered(ts1, init + [v])
  {
    forall id ensures Score(init + [v], id) > 0 <==> Slot(ts1, id) >= 0 {
      Extend(init, v, id);
      SlotSameIds(ts, ts1, id);
    }
  }

  /** A vote for a new category appends an entry carrying the vote's name. */
  lemma AppendKeeps(ts: seq<Tally>, init: seq<Vote>, v: Vote)
    requires Summarizes(ts, init) && v.weight > 0 && Slot(ts, v.id) < 0
    ensures Summarizes(Tallied(ts, v), init + [v])
  {
    assert Tallied(ts, v) == ts + [Tally(v.id, v.weight, v.name)];
    AppendCounted(ts, init, v);
    AppendNamed(ts, init, v);
    AppendOrdered(ts, init, v);
    AppendCovered(ts, init, v);
  }

  lemma AppendCounted(ts: seq<Tally>, init: seq<Vote>, v: Vote)
    requires Counted(ts, init) && Covered(ts, init) && v.weight > 0 && Slot(ts, v.id) < 0
    ensures Counted(ts + [Tally(v.id, v.weight, v.name)], init + [v])
  {
    var ts1 := ts + [Tally(v.id, v.weight, v.name)];
    forall j | 0 <= j < |ts1| ensures ts1[j].count == Score(init + [v], ts1[j].id) > 0 {
      Extend(init, v, ts1[j].id);
    }
  }

  lemma AppendNamed(ts: seq<Tally>, init: seq<Vote>, v: Vote)
    requires Counted(ts, init) && Named(ts, init) && Covered(ts, init) && v.weight > 0 && Slot(ts, v.id) < 0
    ensures Named(ts + [Tally(v.id, v.weight, v.name)], init + [v])
  {
    ScoreFirst(init, v.id);
    Extend(init, v, v.id);
    FirstsKept(ts, init, v);
  }

  lemma AppendOrdered(ts: seq<Tally>, init: seq<Vote>, v: Vote)
    requires Counted(ts, init) && Ordered(ts, init) && Covered(ts, init) && v.weight > 0 && Slot(ts, v.id) < 0
    ensures Ordered(ts + [Tally(v.id, v.weight, v.name)], init + [v])
  {
    ScoreFirst(init, v.id);
    Extend(init, v, v.id);
    FirstsKept(ts, init, v);
  }

  lemma AppendCovered(ts: seq<Tally>, init: seq<Vote>, v: Vote)
    requires Covered(ts, init) && v.weight > 0 && Slot(ts, v.id) < 0
    ensures Covered(ts + [Tally(v.id, v.weight, v.name)], init + [v])
  {
    var t := Tally(v.id, v.weight, v.name);
    forall id ensures Score(init + [v], id) > 0 <==> Slot(ts + [t], id) >= 0 {
      Extend(init, v, id);
      SlotAppend(ts, t, id);
    }
  }

  /** Two tallies with the same ids at the same positions hold the same ids. */
  lemma SlotSameIds(ts: seq<Tally>, us: seq<Tally>, id: string)
    requires |ts| == |us| && forall j | 0 <= j < |ts| :: ts[j].id == us[j].id
    ensures Slot(ts, id) >= 0 <==> Slot(us, id) >= 0
  {
    if Slot(ts, id) >= 0 {
      assert us[Slot(ts, id)].id == id;
    }
    if Slot(us, id) >= 0 {
      assert ts[Slot(us, id)].id == id;
    }
  }

  lemma SlotAppend(ts: seq<Tally>, t: Tally, id: string)
    ensures Slot(ts + [t], id) >= 0 <==> Slot(ts, id) >= 0 || id == t.id
  {
    var us := ts + [t];
    if Slot(ts, id) >= 0 {
      assert us[Slot(ts, id)].id == id;
    } else if id == t.id {
      assert us[|ts|].id == id;
    }
    if Slot(us, id) >= 0 && Slot(us, id) < |ts| {
      assert ts[Slot(us, id)].id == id;
    }
  }

  /** The counting loop computes the tally of the votes. */
  lemma {:induction false} TalliesScore(vs: seq<Vote>)
    ensures Summarizes(Tallies(vs), vs)
  {
    if vs != [] {
      var init := vs[..|vs| - 1];
      var v := vs[|vs| - 1];
      assert init + [v] == vs;
      var ts := Tallies(init);
      TalliesScore(init);
      if v.weight == 0 {
        SkipKeeps(ts, init, v);
      } else if Slot(ts, v.id) >= 0 {
        BumpKeeps(ts, init, v);
      } else {
        AppendKeeps(ts, init, v);
      }
    }
  }

  /** The scanning loop: a later entry replaces the candidate only with a strictly greater count. */
  function Best(ts: seq<Tally>): Pick {
    if ts == [] then Pick("", 0, "")
    else
      var b := Best(ts[..|ts| - 1]);
      var t := ts[|ts| - 1];
      if t.count > b.count then Pick(t.id, t.count, t.name) else b
  }

  /** Entry `b` is the scan's result: it has the greatest count, strictly greater than every earlier one. */
  predicate Leads(ts: seq<Tally>, b: nat)
    requires b < |ts|
  {
    && Best(ts) == Pick(ts[b].id, ts[b].count, ts[b].name)
    && (forall j | 0 <= j < |ts| :: ts[j].count <= ts[b].count)
    && (forall j | 0 <= j < b :: ts[j].count < ts[b].count)
  }

  /**
   * With positive counts, the scan picks the entry with the greatest count, and the first such
   * entry when several tie.
   */
  lemma {:induction false} BestLeads(ts: seq<Tally>)
    requires ts != [] && forall k | 0 <= k < |ts| :: ts[k].count > 0
    ensures exists b | 0 <= b < |ts| :: Leads(ts, b)
  {
    var init := ts[..|ts| - 1];
    var t := ts[|ts| - 1];
    if init == [] {
      assert Leads(ts, 0);
    } else {
      BestLeads(init);
      var b :| 0 <= b < |init| && Leads(init, b);
      if t.count > init[b].count {
        assert Leads(ts, |ts| - 1);
      } else {
        assert Leads(ts, b);
      }
    }
  }

  /** What `suggestCategory` returns. */
  function Suggest(description: string, past: seq<Past>): (r: Option<Suggestion>)
    ensures |description| < 2 ==> r.None?
  {
    if |description| < 2 then None
    else if past == [] then None
    else Outcome(Tallies(Votes(past, LowerTrim(description))))
  }

  /** No suggestion from an empty tally or a winner with an empty id; otherwise the winner. */
  function Outcome(ts: seq<Tally>): Option<Suggestion> {
    if ts == [] then None
    else
      var b := Best(ts);
      if b.id != "" then Some(Suggestion(b.id, b.name)) else None
  }

  lemma TalliedBump(ts: seq<Tally>, v: Vote, k: int, id: string, w: nat)
    requires v.weight == w > 0 && v.id == id && k == Slot(ts, id) >= 0
    ensures Tallied(ts, v) == ts[k := ts[k].(count := ts[k].count + w)]
  {
  }

  lemma TalliedAppend(ts: seq<Tally>, v: Vote, id: string, w: nat, name: string)
    requires v == Vote(id, w, name) && w > 0 && Slot(ts, id) < 0
    ensures Tallied(ts, v) == ts + [Tally(id, w, name)]
  {
  }

  lemma TalliesStep(past: seq<Past>, i: nat, desc: string)
    requires i < |past|
    ensures Tallies(Votes(past[..i + 1], desc)) == Tallied(Tallies(Votes(past[..i], desc)), VoteOf(past[i], desc))
  {
    VotesStep(past, i, desc);
    var vs := Votes(past[..i], desc) + [VoteOf(past[i], desc)];
    assert vs[..|vs| - 1] == Votes(past[..i], desc);
  }

  /** `suggestCategory`: the counting loop over the past entries, then the scan for the greatest count. */
  method SuggestCategory(description: string, past: seq<Past>) returns (r: Option<Suggestion>)
    ensures r == Suggest(description, past)
  {
    if |description| < 2 {
      return None;
    }
    var desc := Trim(ToLower(description));
    if |past| == 0 {
      return None;
    }
    var counts := CountVotes(past, desc);
    if |counts| == 0 {
      return None;
    }
    var bestId, bestCount, bestName := ScanBest(counts);
    r := if bestId != "" then Some(Suggestion(bestId, bestName)) else None;
  }

  /** The first loop: each resembling past entry adds its weight to its category's entry. */
  method CountVotes(past: seq<Past>, desc: string) returns (counts: seq<Tally>)
    ensures counts == Tallies(Votes(past, desc))
  {
    counts := [];
    for i := 0 to |past|
      invariant counts == Tallies(Votes(past[..i], desc))
    {
      TalliesStep(past, i, desc);
      var tx := past[i];
      // the exact, prefix and substring tests and the weight they give
      var weight := Weight(Trim(ToLower(tx.description)), desc);
      if weight == 0 {
        assert Tallied(counts, VoteOf(tx, desc)) == counts;
        continue;
      }
      ghost var v := VoteOf(tx, desc);
      assert v == Vote(tx.categoryId, weight, tx.categoryName.GetOr(""));
      var k := Slot(counts, tx.categoryId);
      if k >= 0 {
        TalliedBump(counts, v, k, tx.categoryId, weight);
        counts := counts[k := counts[k].(count := counts[k].count + weight)];
      } else {
        TalliedAppend(counts, v, tx.categoryId, weight, tx.categoryName.GetOr(""));
        counts := counts + [Tally(tx.categoryId, weight, tx.categoryName.GetOr(""))];
      }
    }
    assert past[..|past|] == past;
  }

  /** The second loop: the entry with the strictly greatest count, the earliest on a tie. */
  method ScanBest(counts: seq<Tally>) returns (bestId: string, bestCount: nat, bestName: string)
    ensures Pick(bestId, bestCount, bestName) == Best(counts)
  {
    bestId, bestCount, bestName := "", 0, "";
    for i := 0 to |counts|
      invariant Pick(bestId, bestCount, bestName) == Best(counts[..i])
    {
      assert counts[..i + 1][..i] == counts[..i];
      if counts[i].count > bestCount {
        bestId, bestCount, bestName := counts[i].id, counts[i].count, counts[i].name;
      }
    }
    assert counts[..|counts|] == counts;
  }

  // ---------------------------------------------------------------------
  // What the suggestion means

  /** No vote has a positive weight: no past entry resembles the description. */
  predicate NoVotes(vs: seq<Vote>) {
    forall i | 0 <= i < |vs| :: vs[i].weight == 0
  }

  /** Category `id` has the greatest score, its first vote coming before that of any other category with the same score. */
  ghost predicate TopScorer(vs: seq<Vote>, id: string) {
    && Score(vs, id) > 0
    && (forall other :: Score(vs, other) <= Score(vs, id))
    && (forall other | other != id && Score(vs, other) == Score(vs, id) :: First(vs, id) < First(vs, other))
  }

  /** The tally is empty exactly when no vote counts. */
  lemma NoVotesEmpty(vs: seq<Vote>)
    ensures Tallies(vs) == [] <==> NoVotes(vs)
  {
    TalliesScore(vs);
    var ts := Tallies(vs);
    if ts != [] {
      var i := First(vs, ts[0].id);
      assert vs[i].weight > 0;
    }
    if !NoVotes(vs) {
      var i :| 0 <= i < |vs| && vs[i].weight > 0;
      VoteScores(vs, i);
      assert Slot(ts, vs[i].id) >= 0;
    }
  }

  /** A vote with positive weight makes its category score. */
  lemma {:induction false} VoteScores(vs: seq<Vote>, i: nat)
    requires i < |vs| && vs[i].weight > 0
    ensures Score(vs, vs[i].id) > 0
  {
    var init := vs[..|vs| - 1];
    if i < |vs| - 1 {
      assert init[i] == vs[i];
      VoteScores(init, i);
    }
  }

  /** The category the scan picks is the top scorer, with the name of its first vote. */
  lemma PickedTop(vs: seq<Vote>)
    requires !NoVotes(vs)
    ensures var b := Best(Tallies(vs)); TopScorer(vs, b.id) && 0 <= First(vs, b.id) && b.name == vs[First(vs, b.id)].name
  {
    var ts := Tallies(vs);
    TalliesScore(vs);
    NoVotesEmpty(vs);
    BestLeads(ts);
    var k :| 0 <= k < |ts| && Leads(ts, k);
    LeaderTops(vs, ts, k);
  }

  /** The leading entry of a tally of `vs` is the top scorer. */
  lemma LeaderTops(vs: seq<Vote>, ts: seq<Tally>, k: nat)
    requires Counted(ts, vs) && Ordered(ts, vs) && Covered(ts, vs)
    requires k < |ts| && Leads(ts, k)
    ensures TopScorer(vs, ts[k].id)
  {
    var id := ts[k].id;
    forall other ensures Score(vs, other) <= Score(vs, id) {
      var j := Slot(ts, other);
      if j >= 0 {
        assert ts[j].count <= ts[k].count;
      }
    }
    forall other | other != id && Score(vs, other) == Score(vs, id) ensures First(vs, id) < First(vs, other) {
      var j := Slot(ts, other);
      assert k < j by {
        assert ts[j].count == ts[k].count;
      }
    }
  }

  /** There is only one top scorer. */
  lemma TopUnique(vs: seq<Vote>, a: string, b: string)
    requires TopScorer(vs, a) && TopScorer(vs, b)
    ensures a == b
  {
  }

  /**
   * The outcome of a tally: none when no vote counts; otherwise the top-scoring category with
   * the name of its first vote, or none when that category's id is empty.
   */
  lemma OutcomeMeaning(vs: seq<Vote>)
    ensures NoVotes(vs) ==> Outcome(Tallies(vs)) == None
    ensures !NoVotes(vs) ==> exists id :: TopScorer(vs, id)
    ensures forall id | TopScorer(vs, id) ::
      0 <= First(vs, id) && Outcome(Tallies(vs)) == if id == "" then None else Some(Suggestion(id, vs[First(vs, id)].name))
  {
    NoVotesEmpty(vs);
    if !NoVotes(vs) {
      PickedTop(vs);
      var b := Best(Tallies(vs));
      forall id | TopScorer(vs, id) ensures id == b.id {
        TopUnique(vs, id, b.id);
      }
    } else {
      forall id | TopScorer(vs, id) ensures false {
        ScoreFirst(vs, id);
      }
    }
  }

  /**
   * The suggestion for a description of two or more characters: none when no past entry
   * resembles it; otherwise the top-scoring category with the name of its first vote, or none
   * when that category's id is empty.
   */
  lemma SuggestionMeaning(description: string, past: seq<Past>)
    requires |description| >= 2
    ensures var vs := Votes(past, LowerTrim(description));
      && (NoVotes(vs) ==> Suggest(description, past) == None)
      && (!NoVotes(vs) ==> exists id :: TopScorer(vs, id))
      && (forall id | TopScorer(vs, id) ::
            0 <= First(vs, id) && Suggest(description, past) == if id == "" then None else Some(Suggestion(id, vs[First(vs, id)].name)))
  {
    OutcomeMeaning(Votes(past, LowerTrim(description)));
  }
}
