/**
 * Receipt items across entries: `getItemsSummary` groups the user's item
 * lines by name (lower-cased and trimmed), summarises each group and orders
 * the summaries by purchase count; `getItemPriceHistory` lists one name's
 * lines by date.
 *
 * The store queries are I/O: the model receives the joined rows they return.
 */
module Items {
  import opened Text
  import opened Sorting
  import opened Domain

  /** A `transaction_items` row joined with its entry's date, description and currency. */
  datatype ItemRow = ItemRow(
    id: string,
    name: string,
    quantity: real,
    unitPrice: real,
    date: string,
    description: string,
    currency: Currency)

  /** A group of the grouping map: the first spelling of the name and the four lists the loop pushes onto. */
  datatype Group = Group(
    key: string,
    name: string,
    prices: seq<real>,
    quantities: seq<real>,
    dates: seq<string>,
    currencies: seq<Currency>)

  /** An `ItemSummary`, without `avgPrice`. */
  datatype Summary = Summary(
    name: string,
    purchaseCount: nat,
    totalQuantity: real,
    minPrice: real,
    maxPrice: real,
    totalSpent: real,
    lastDate: string,
    currency: Currency)

  /** A row with the key it is grouped under. */
  datatype Keyed = Keyed(key: string, row: ItemRow)

  function KeyedRows(rows: seq<ItemRow>): (ks: seq<Keyed>)
    ensures |ks| == |rows|
  {
    if rows == [] then [] else KeyedRows(rows[..|rows| - 1]) + [Keyed(LowerTrim(rows[|rows| - 1].name), rows[|rows| - 1])]
  }

  lemma KeyedStep(rows: seq<ItemRow>, i: nat)
    requires i < |rows|
    ensures KeyedRows(rows[..i + 1]) == KeyedRows(rows[..i]) + [Keyed(LowerTrim(rows[i].name), rows[i])]
  {
    assert rows[..i + 1][..i] == rows[..i];
    assert rows[..i + 1][i] == rows[i];
  }

  // ---------------------------------------------------------------------
  // The grouping loop

  /** The position of the group with key `key`, or -1. */
  function Find(gs: seq<Group>, key: string): (k: int)
    ensures -1 <= k < |gs|
    ensures k >= 0 ==> gs[k].key == key
    ensures k < 0 ==> forall j | 0 <= j < |gs| :: gs[j].key != key
  {
    if gs == [] then -1
    else
      var k := Find(gs[..|gs| - 1], key);
      if k >= 0 then k else if gs[|gs| - 1].key == key then |gs| - 1 else -1
  }

  /** The group a new key starts with: the row's own spelling and empty lists. */
  function Fresh(kr: Keyed): Group {
    Group(kr.key, kr.row.name, [], [], [], [])
  }

  /** The four pushes of one row onto its group. */
  function Pushed(g: Group, r: ItemRow): Group {
    g.(prices := g.prices + [r.unitPrice], quantities := g.quantities + [r.quantity],
       dates := g.dates + [r.date], currencies := g.currencies + [r.currency])
  }

  /** One pass of the grouping loop: create the group when the key is new, then push the row onto it. */
  function Added(gs: seq<Group>, kr: Keyed): seq<Group> {
    var gs1 := if Find(gs, kr.key) >= 0 then gs else gs + [Fresh(kr)];
    var k := Find(gs1, kr.key);
    if k >= 0 then gs1[k := Pushed(gs1[k], kr.row)] else gs1
  }

  /** The grouping map after the loop has seen `ks`, in insertion order. */
  function Grouped(ks: seq<Keyed>): seq<Group> {
    if ks == [] then [] else Added(Grouped(ks[..|ks| - 1]), ks[|ks| - 1])
  }

  lemma GroupedStep(rows: seq<ItemRow>, i: nat)
    requires i < |rows|
    ensures Grouped(KeyedRows(rows[..i + 1])) == Added(Grouped(KeyedRows(rows[..i])), Keyed(LowerTrim(rows[i].name), rows[i]))
  {
    KeyedStep(rows, i);
    var ks := KeyedRows(rows[..i]) + [Keyed(LowerTrim(rows[i].name), rows[i])];
    assert ks[..|ks| - 1] == KeyedRows(rows[..i]);
  }

  lemma AddedSteps(gs: seq<Group>, kr: Keyed, gs1: seq<Group>)
    requires gs1 == if Find(gs, kr.key) >= 0 then gs else gs + [Fresh(kr)]
    ensures Find(gs1, kr.key) >= 0
    ensures var k := Find(gs1, kr.key);
      Added(gs, kr) == gs1[k := gs1[k].(prices := gs1[k].prices + [kr.row.unitPrice], quantities := gs1[k].quantities + [kr.row.quantity],
                                        dates := gs1[k].dates + [kr.row.date], currencies := gs1[k].currencies + [kr.row.currency])]
  {
    if Find(gs, kr.key) < 0 {
      FindAppend(gs, Fresh(kr), kr.key);
    }
  }

  /** The first loop of `getItemsSummary`. */
  method GroupRows(rows: seq<ItemRow>) returns (groups: seq<Group>)
    ensures groups == Grouped(KeyedRows(rows))
  {
    groups := [];
    for i := 0 to |rows|
      invariant groups == Grouped(KeyedRows(rows[..i]))
    {
      GroupedStep(rows, i);
      var item := rows[i];
      var key := Trim(ToLower(item.name));
      ghost var kr := Keyed(key, item);
      ghost var before := groups;
      if Find(groups, key) < 0 {
        groups := groups + [Group(key, item.name, [], [], [], [])];
      }
      AddedSteps(before, kr, groups);
      var k := Find(groups, key);
      var group := groups[k];
      groups := groups[k := group.(prices := group.prices + [item.unitPrice], quantities := group.quantities + [item.quantity],
                                   dates := group.dates + [item.date], currencies := group.currencies + [item.currency])];
    }
    assert rows[..|rows|] == rows;
  }

  // ---------------------------------------------------------------------
  // What a group holds

  /** The rows grouped under `key`, in input order. */
  function Members(ks: seq<Keyed>, key: string): seq<ItemRow> {
    if ks == [] then []
    else
      var kr := ks[|ks| - 1];
      Members(ks[..|ks| - 1], key) + (if kr.key == key then [kr.row] else [])
  }

  function Prices(ms: seq<ItemRow>): (ps: seq<real>)
    ensures |ps| == |ms|
  {
    if ms == [] then [] else Prices(ms[..|ms| - 1]) + [ms[|ms| - 1].unitPrice]
  }

  function Quantities(ms: seq<ItemRow>): (qs: seq<real>)
    ensures |qs| == |ms|
  {
    if ms == [] then [] else Quantities(ms[..|ms| - 1]) + [ms[|ms| - 1].quantity]
  }

  function Dates(ms: seq<ItemRow>): (ds: seq<string>)
    ensures |ds| == |ms|
  {
    if ms == [] then [] else Dates(ms[..|ms| - 1]) + [ms[|ms| - 1].date]
  }

  function Currencies(ms: seq<ItemRow>): (cs: seq<Currency>)
    ensures |cs| == |ms|
  {
    if ms == [] then [] else Currencies(ms[..|ms| - 1]) + [ms[|ms| - 1].currency]
  }

  /** The group the loop builds for `key`, stated from its members. */
  function GroupOf(ks: seq<Keyed>, key: string): Group
    requires Members(ks, key) != []
  {
    var ms := Members(ks, key);
    Group(key, ms[0].name, Prices(ms), Quantities(ms), Dates(ms), Currencies(ms))
  }

  lemma ProjectStep(ms: seq<ItemRow>, r: ItemRow)
    ensures Prices(ms + [r]) == Prices(ms) + [r.unitPrice]
    ensures Quantities(ms + [r]) == Quantities(ms) + [r.quantity]
    ensures Dates(ms + [r]) == Dates(ms) + [r.date]
    ensures Currencies(ms + [r]) == Currencies(ms) + [r.currency]
  {
    assert (ms + [r])[..|ms|] == ms;
  }

  lemma MembersStep(ks: seq<Keyed>, kr: Keyed, key: string)
    ensures Members(ks + [kr], key) == Members(ks, key) + (if kr.key == key then [kr.row] else [])
  {
    assert (ks + [kr])[..|ks|] == ks;
  }

  /** Pushing a row onto its group gives the group of the longer input. */
  lemma GroupOfStep(ks: seq<Keyed>, kr: Keyed)
    ensures Members(ks, kr.key) != [] ==> GroupOf(ks + [kr], kr.key) == Pushed(GroupOf(ks, kr.key), kr.row)
    ensures Members(ks, kr.key) == [] ==> GroupOf(ks + [kr], kr.key) == Pushed(Fresh(kr), kr.row)
  {
    MembersStep(ks, kr, kr.key);
    ProjectStep(Members(ks, kr.key), kr.row);
    if Members(ks, kr.key) == [] {
      assert Members(ks + [kr], kr.key) == [kr.row];
      assert Prices([kr.row]) == [] + [kr.row.unitPrice];
    }
  }

  lemma GroupOfOther(ks: seq<Keyed>, kr: Keyed, key: string)
    requires key != kr.key && Members(ks, key) != []
    ensures Members(ks + [kr], key) == Members(ks, key)
    ensures GroupOf(ks + [kr], key) == GroupOf(ks, key)
  {
    MembersStep(ks, kr, key);
  }

  predicate DistinctKeys(gs: seq<Group>) {
    forall i, j | 0 <= i < j < |gs| :: gs[i].key != gs[j].key
  }

  /** `gs` is the grouping of `ks`: one group per key, each holding exactly that key's rows, in order. */
  ghost predicate Groups(gs: seq<Group>, ks: seq<Keyed>) {
    && DistinctKeys(gs)
    && (forall k | 0 <= k < |gs| :: Members(ks, gs[k].key) != [] && gs[k] == GroupOf(ks, gs[k].key))
    && (forall key :: Members(ks, key) != [] <==> Find(gs, key) >= 0)
  }

  lemma FindAppend(gs: seq<Group>, g: Group, key: string)
    ensures Find(gs + [g], key) == if Find(gs, key) >= 0 then Find(gs, key) else if g.key == key then |gs| else -1
  {
    assert (gs + [g])[..|gs|] == gs;
  }

  lemma FindUpdate(gs: seq<Group>, k: nat, g: Group, key: string)
    requires k < |gs| && g.key == gs[k].key
    ensures Find(gs[k := g], key) >= 0 <==> Find(gs, key) >= 0
  {
    var us := gs[k := g];
    if Find(gs, key) >= 0 {
      assert us[Find(gs, key)].key == key;
    }
    if Find(us, key) >= 0 {
      assert gs[Find(us, key)].key == key;
    }
  }

  /** A row whose key already has a group is pushed onto that group. */
  lemma AddedExisting(gs: seq<Group>, ks: seq<Keyed>, kr: Keyed)
    requires Groups(gs, ks) && Find(gs, kr.key) >= 0
    ensures Groups(Added(gs, kr), ks + [kr])
  {
    var k := Find(gs, kr.key);
    var gs1 := gs[k := Pushed(gs[k], kr.row)];
    assert Added(gs, kr) == gs1;
    PushedGroups(gs, ks, kr, k, gs1);
    PushedCovers(gs, ks, kr, k, gs1);
  }

  lemma PushedGroups(gs: seq<Group>, ks: seq<Keyed>, kr: Keyed, k: nat, gs1: seq<Group>)
    requires Groups(gs, ks) && k == Find(gs, kr.key) && gs1 == gs[k := Pushed(gs[k], kr.row)]
    ensures DistinctKeys(gs1)
    ensures forall j | 0 <= j < |gs1| :: Members(ks + [kr], gs1[j].key) != [] && gs1[j] == GroupOf(ks + [kr], gs1[j].key)
  {
    GroupOfStep(ks, kr);
    forall j | 0 <= j < |gs1| ensures Members(ks + [kr], gs1[j].key) != [] && gs1[j] == GroupOf(ks + [kr], gs1[j].key) {
      if j != k {
        assert gs[j].key != kr.key;
        GroupOfOther(ks, kr, gs[j].key);
      }
    }
    forall i, j | 0 <= i < j < |gs1| ensures gs1[i].key != gs1[j].key {
      assert gs1[i].key == gs[i].key && gs1[j].key == gs[j].key;
    }
  }

  lemma PushedCovers(gs: seq<Group>, ks: seq<Keyed>, kr: Keyed, k: nat, gs1: seq<Group>)
    requires Groups(gs, ks) && k == Find(gs, kr.key) && gs1 == gs[k := Pushed(gs[k], kr.row)]
    ensures forall key :: Members(ks + [kr], key) != [] <==> Find(gs1, key) >= 0
  {
    forall key ensures Members(ks + [kr], key) != [] <==> Find(gs1, key) >= 0 {
      MembersStep(ks, kr, key);
      FindUpdate(gs, k, Pushed(gs[k], kr.row), key);
    }
  }

  /** A row with a new key starts a group holding just that row. */
  lemma AddedNew(gs: seq<Group>, ks: seq<Keyed>, kr: Keyed)
    requires Groups(gs, ks) && Find(gs, kr.key) < 0
    ensures Groups(Added(gs, kr), ks + [kr])
  {
    var g := Pushed(Fresh(kr), kr.row);
    FindAppend(gs, Fresh(kr), kr.key);
    assert Added(gs, kr) == gs + [g];
    AppendedGroups(gs, ks, kr, gs + [g]);
    AppendedCovers(gs, ks, kr, gs + [g]);
  }

  lemma AppendedGroups(gs: seq<Group>, ks: seq<Keyed>, kr: Keyed, gs1: seq<Group>)
    requires Groups(gs, ks) && Find(gs, kr.key) < 0 && gs1 == gs + [Pushed(Fresh(kr), kr.row)]
    ensures DistinctKeys(gs1)
    ensures forall k | 0 <= k < |gs1| :: Members(ks + [kr], gs1[k].key) != [] && gs1[k] == GroupOf(ks + [kr], gs1[k].key)
  {
    GroupOfStep(ks, kr);
    MembersStep(ks, kr, kr.key);
    forall j | 0 <= j < |gs| ensures Members(ks + [kr], gs[j].key) != [] && gs[j] == GroupOf(ks + [kr], gs[j].key) {
      GroupOfOther(ks, kr, gs[j].key);
    }
    assert gs1[|gs|] == GroupOf(ks + [kr], kr.key);
  }

  lemma AppendedCovers(gs: seq<Group>, ks: seq<Keyed>, kr: Keyed, gs1: seq<Group>)
    requires Groups(gs, ks) && Find(gs, kr.key) < 0 && gs1 == gs + [Pushed(Fresh(kr), kr.row)]
    ensures forall key :: Members(ks + [kr], key) != [] <==> Find(gs1, key) >= 0
  {
    forall key ensures Members(ks + [kr], key) != [] <==> Find(gs1, key) >= 0 {
      MembersStep(ks, kr, key);
      FindAppend(gs, Pushed(Fresh(kr), kr.row), key);
    }
  }

  /** The grouping loop puts every row in the group of its key, one group per key. */
  lemma {:induction false} GroupedGroups(ks: seq<Keyed>)
    ensures Groups(Grouped(ks), ks)
  {
    if ks != [] {
      var init := ks[..|ks| - 1];
      var kr := ks[|ks| - 1];
      assert init + [kr] == ks;
      GroupedGroups(init);
      if Find(Grouped(init), kr.key) >= 0 {
        AddedExisting(Grouped(init), init, kr);
      } else {
        AddedNew(Grouped(init), init, kr);
      }
    }
  }

  // ---------------------------------------------------------------------
  // Every row is counted once

  function CountTotal(gs: seq<Group>): nat {
    if gs == [] then 0 else CountTotal(gs[..|gs| - 1]) + |gs[|gs| - 1].prices|
  }

  lemma {:induction false} CountTotalUpdate(gs: seq<Group>, k: nat, g: Group)
    requires k < |gs|
    ensures CountTotal(gs[k := g]) + |gs[k].prices| == CountTotal(gs) + |g.prices|
  {
    var us := gs[k := g];
    if k < |gs| - 1 {
      assert us[..|us| - 1] == gs[..|gs| - 1][k := g];
      CountTotalUpdate(gs[..|gs| - 1], k, g);
    } else {
      assert us[..|us| - 1] == gs[..|gs| - 1];
    }
  }

  lemma CountTotalAppend(gs: seq<Group>, g: Group)
    ensures CountTotal(gs + [g]) == CountTotal(gs) + |g.prices|
  {
    assert (gs + [g])[..|gs|] == gs;
  }

  /** The group sizes add up to the number of rows. */
  lemma {:induction false} GroupedCount(ks: seq<Keyed>)
    ensures CountTotal(Grouped(ks)) == |ks|
  {
    if ks != [] {
      var init := ks[..|ks| - 1];
      var kr := ks[|ks| - 1];
      var gs := Grouped(init);
      GroupedCount(init);
      var gs1 := if Find(gs, kr.key) >= 0 then gs else gs + [Fresh(kr)];
      if Find(gs, kr.key) < 0 {
        CountTotalAppend(gs, Fresh(kr));
      }
      var k := Find(gs1, kr.key);
      if Find(gs, kr.key) < 0 {
        FindAppend(gs, Fresh(kr), kr.key);
      }
      CountTotalUpdate(gs1, k, Pushed(gs1[k], kr.row));
    }
  }

  // ---------------------------------------------------------------------
  // Summaries

  /** The four lists of a group have one entry per row, and there is at least one row. */
  predicate WellFormed(g: Group) {
    && g.prices != []
    && |g.quantities| == |g.prices|
    && |g.dates| == |g.prices|
    && |g.currencies| == |g.prices|
  }

  lemma GroupedWellFormed(ks: seq<Keyed>)
    ensures forall k | 0 <= k < |Grouped(ks)| :: WellFormed(Grouped(ks)[k])
  {
    GroupedGroups(ks);
  }

  /** `quantities.reduce((s, q) => s + q, 0)`. */
  function Sum(xs: seq<real>): real {
    if xs == [] then 0.0 else Sum(xs[..|xs| - 1]) + xs[|xs| - 1]
  }

  /** `prices.reduce((s, p, i) => s + p * quantities[i], 0)`. */
  function Spent(ps: seq<real>, qs: seq<real>): real
    requires |ps| == |qs|
  {
    if ps == [] then 0.0 else Spent(ps[..|ps| - 1], qs[..|qs| - 1]) + ps[|ps| - 1] * qs[|qs| - 1]
  }

  /** `Math.min(...xs)` of a non-empty list. */
  function MinOf(xs: seq<real>): (m: real)
    requires xs != []
    ensures m in xs && forall i | 0 <= i < |xs| :: m <= xs[i]
  {
    if |xs| == 1 then xs[0]
    else
      var m := MinOf(xs[1..]);
      assert forall i | 1 <= i < |xs| :: xs[i] == xs[1..][i - 1];
      if xs[0] <= m then xs[0] else m
  }

  /** `Math.max(...xs)` of a non-empty list. */
  function MaxOf(xs: seq<real>): (m: real)
    requires xs != []
    ensures m in xs && forall i | 0 <= i < |xs| :: xs[i] <= m
  {
    if |xs| == 1 then xs[0]
    else
      var m := MaxOf(xs[1..]);
      assert forall i | 1 <= i < |xs| :: xs[i] == xs[1..][i - 1];
      if xs[0] >= m then xs[0] else m
  }

  /** The summary pushed for one group. */
  function Summarize(g: Group): Summary
    requires WellFormed(g)
  {
    Summary(g.name, |g.prices|, Sum(g.quantities), MinOf(g.prices), MaxOf(g.prices),
            Spent(g.prices, g.quantities), LexMax(g.dates), g.currencies[0])
  }

  /** The second loop of `getItemsSummary`: one summary per group, in the map's order. */
  method SummarizeGroups(groups: seq<Group>) returns (summaries: seq<Summary>)
    requires forall k | 0 <= k < |groups| :: WellFormed(groups[k])
    ensures |summaries| == |groups|
    ensures forall k | 0 <= k < |groups| :: summaries[k] == Summarize(groups[k])
  {
    summaries := [];
    for i := 0 to |groups|
      invariant |summaries| == i
      invariant forall k | 0 <= k < i :: summaries[k] == Summarize(groups[k])
    {
      var group := groups[i];
      var totalQuantity := Sum(group.quantities);
      var totalSpent := Spent(group.prices, group.quantities);
      summaries := summaries + [Summary(group.name, |group.prices|, totalQuantity, MinOf(group.prices), MaxOf(group.prices),
                                        totalSpent, LexMax(group.dates), group.currencies[0])];
    }
  }

  function PurchaseCount(s: Summary): int {
    s.purchaseCount
  }

  function Summaries(gs: seq<Group>): (ss: seq<Summary>)
    requires forall k | 0 <= k < |gs| :: WellFormed(gs[k])
    ensures |ss| == |gs|
  {
    seq(|gs|, k requires 0 <= k < |gs| => Summarize(gs[k]))
  }

  /** What `getItemsSummary` returns: the summaries, by purchase count, largest first. */
  function ItemsSummary(rows: seq<ItemRow>): seq<Summary> {
    var gs := Grouped(KeyedRows(rows));
    GroupedWellFormed(KeyedRows(rows));
    SortDescending(Summaries(gs), PurchaseCount)
  }

  /** Items bought equally often keep the order of their first purchase among the rows: the sort is stable. */
  lemma ItemsSummaryTies(rows: seq<ItemRow>, n: int)
    ensures forall k | 0 <= k < |Grouped(KeyedRows(rows))| :: WellFormed(Grouped(KeyedRows(rows))[k])
    ensures WithRank(ItemsSummary(rows), PurchaseCount, n) == WithRank(Summaries(Grouped(KeyedRows(rows))), PurchaseCount, n)
  {
    GroupedWellFormed(KeyedRows(rows));
    SortDescendingStable(Summaries(Grouped(KeyedRows(rows))), PurchaseCount, n);
  }

  /** `getItemsSummary` over the rows the query returned. */
  method GetItemsSummary(rows: seq<ItemRow>) returns (r: seq<Summary>)
    ensures r == ItemsSummary(rows)
  {
    var groups := GroupRows(rows);
    GroupedWellFormed(KeyedRows(rows));
    var summaries := SummarizeGroups(groups);
    assert summaries == Summaries(groups);
    r := SortDescending(summaries, PurchaseCount);
  }

  // ---------------------------------------------------------------------
  // What a summary says about the rows

  /** The total of `quantity` over the rows, independently of the group's lists. */
  function RowQuantity(ms: seq<ItemRow>): real {
    if ms == [] then 0.0 else RowQuantity(ms[..|ms| - 1]) + ms[|ms| - 1].quantity
  }

  /** The total of `unit_price * quantity` over the rows. */
  function RowSpent(ms: seq<ItemRow>): real {
    if ms == [] then 0.0 else RowSpent(ms[..|ms| - 1]) + ms[|ms| - 1].unitPrice * ms[|ms| - 1].quantity
  }

  lemma {:induction false} TotalsOfRows(ms: seq<ItemRow>)
    ensures Sum(Quantities(ms)) == RowQuantity(ms)
    ensures Spent(Prices(ms), Quantities(ms)) == RowSpent(ms)
  {
    if ms != [] {
      var init := ms[..|ms| - 1];
      TotalsOfRows(init);
      assert Quantities(ms)[..|ms| - 1] == Quantities(init);
      assert Prices(ms)[..|ms| - 1] == Prices(init);
    }
  }

  lemma ProjectAt(ms: seq<ItemRow>, i: nat)
    requires i < |ms|
    ensures Prices(ms)[i] == ms[i].unitPrice && Dates(ms)[i] == ms[i].date && Currencies(ms)[i] == ms[i].currency
    decreases |ms|
  {
    if i < |ms| - 1 {
      ProjectAt(ms[..|ms| - 1], i);
    }
  }

  /**
   * The summary of a key's rows: one purchase per row; the quantities and the price times
   * quantity summed over the rows; the cheapest and dearest unit price among them; the latest
   * date; and the name and currency of the first row.
   */
  lemma {:induction false} SummaryOfRows(ks: seq<Keyed>, key: string)
    requires Members(ks, key) != []
    ensures var ms := Members(ks, key); var s := Summarize(GroupOf(ks, key));
      && s.purchaseCount == |ms|
      && s.name == ms[0].name && s.currency == ms[0].currency
      && s.totalQuantity == RowQuantity(ms)
      && s.totalSpent == RowSpent(ms)
      && (forall i | 0 <= i < |ms| :: s.minPrice <= ms[i].unitPrice <= s.maxPrice)
      && (exists i | 0 <= i < |ms| :: s.minPrice == ms[i].unitPrice)
      && (exists i | 0 <= i < |ms| :: s.maxPrice == ms[i].unitPrice)
      && (forall i | 0 <= i < |ms| :: LexLe(ms[i].date, s.lastDate))
      && (exists i | 0 <= i < |ms| :: s.lastDate == ms[i].date)
  {
    var ms := Members(ks, key);
    var g := GroupOf(ks, key);
    var s := Summarize(g);
    TotalsOfRows(ms);
    ProjectAt(ms, 0);
    forall i | 0 <= i < |ms| ensures s.minPrice <= ms[i].unitPrice <= s.maxPrice && LexLe(ms[i].date, s.lastDate) {
      ProjectAt(ms, i);
    }
    var a :| 0 <= a < |ms| && g.prices[a] == s.minPrice;
    ProjectAt(ms, a);
    var b :| 0 <= b < |ms| && g.prices[b] == s.maxPrice;
    ProjectAt(ms, b);
    var c :| 0 <= c < |ms| && g.dates[c] == s.lastDate;
    ProjectAt(ms, c);
  }

  /**
   * The summaries are exactly one per key that some row has, each the summary of that key's rows,
   * in non-increasing order of purchase count.
   */
  lemma ItemsSummaryMeaning(rows: seq<ItemRow>)
    ensures DescendingBy(ItemsSummary(rows), PurchaseCount)
    ensures OnePerKey(ItemsSummary(rows), KeyedRows(rows))
  {
    var ks := KeyedRows(rows);
    var gs := Grouped(ks);
    GroupedGroups(ks);
    GroupedWellFormed(ks);
    PermutedSummaries(ItemsSummary(rows), gs, ks);
  }

  /** Every summary in `r` is the summary of some key's rows, and every key with rows has its summary in `r`. */
  ghost predicate OnePerKey(r: seq<Summary>, ks: seq<Keyed>) {
    && (forall s | s in r :: exists key | Members(ks, key) != [] :: s == Summarize(GroupOf(ks, key)))
    && (forall key | Members(ks, key) != [] :: Summarize(GroupOf(ks, key)) in r)
  }

  lemma PermutedSummaries(r: seq<Summary>, gs: seq<Group>, ks: seq<Keyed>)
    requires Groups(gs, ks)
    requires forall k | 0 <= k < |gs| :: WellFormed(gs[k])
    requires multiset(r) == multiset(Summaries(gs))
    ensures OnePerKey(r, ks)
  {
    SummariesOfGroups(gs, ks);
    SameElements(r, Summaries(gs));
  }

  lemma SameElements<T>(a: seq<T>, b: seq<T>)
    requires multiset(a) == multiset(b)
    ensures forall x :: x in a <==> x in b
  {
    forall x ensures x in a <==> x in b {
      assert x in a <==> x in multiset(a);
    }
  }

  lemma SummariesOfGroups(gs: seq<Group>, ks: seq<Keyed>)
    requires Groups(gs, ks)
    ensures forall k | 0 <= k < |gs| :: WellFormed(gs[k])
    ensures forall s | s in Summaries(gs) :: exists key | Members(ks, key) != [] :: s == Summarize(GroupOf(ks, key))
    ensures forall key | Members(ks, key) != [] :: Summarize(GroupOf(ks, key)) in Summaries(gs)
  {
    var ss := Summaries(gs);
    forall s | s in ss ensures exists key | Members(ks, key) != [] :: s == Summarize(GroupOf(ks, key)) {
      var k :| 0 <= k < |ss| && ss[k] == s;
      assert s == Summarize(GroupOf(ks, gs[k].key));
    }
    forall key | Members(ks, key) != [] ensures Summarize(GroupOf(ks, key)) in ss {
      var k := Find(gs, key);
      assert ss[k] == Summarize(GroupOf(ks, key));
    }
  }

  // ---------------------------------------------------------------------
  // Purchase counts add up

  function CountSum(ss: seq<Summary>): nat {
    if ss == [] then 0 else ss[0].purchaseCount + CountSum(ss[1..])
  }

  lemma {:induction false} CountSumRemove(ss: seq<Summary>, j: nat)
    requires j < |ss|
    ensures CountSum(ss) == ss[j].purchaseCount + CountSum(ss[..j] + ss[j + 1..])
  {
    if j > 0 {
      CountSumRemove(ss[1..], j - 1);
      assert ss[1..][..j - 1] + ss[1..][j..] == (ss[..j] + ss[j + 1..])[1..];
    } else {
      assert ss[..j] + ss[j + 1..] == ss[1..];
    }
  }

  lemma {:induction false} CountSumPermutation(a: seq<Summary>, b: seq<Summary>)
    requires multiset(a) == multiset(b)
    ensures CountSum(a) == CountSum(b)
    decreases |a|
  {
    if a == [] {
      assert |b| == |multiset(b)| == 0;
    } else {
      assert a[0] in multiset(b);
      var j :| 0 <= j < |b| && b[j] == a[0];
      var b' := b[..j] + b[j + 1..];
      RemoveMatching(a, b, j);
      CountSumPermutation(a[1..], b');
      CountSumRemove(b, j);
    }
  }

  /** Taking the first of `a` and its match out of `b` keeps the two permutations of each other. */
  lemma RemoveMatching<T>(a: seq<T>, b: seq<T>, j: nat)
    requires multiset(a) == multiset(b) && a != [] && j < |b| && b[j] == a[0]
    ensures multiset(a[1..]) == multiset(b[..j] + b[j + 1..])
  {
    assert b == b[..j] + [b[j]] + b[j + 1..];
    assert a == [a[0]] + a[1..];
    calc {
      multiset(a[1..]);
      multiset(a) - multiset{a[0]};
      multiset(b) - multiset{b[j]};
      multiset(b[..j]) + multiset(b[j + 1..]);
    }
  }

  lemma {:induction false} CountSumGroups(ss: seq<Summary>, gs: seq<Group>)
    requires |ss| == |gs|
    requires forall k | 0 <= k < |gs| :: ss[k].purchaseCount == |gs[k].prices|
    ensures CountSum(ss) == CountTotal(gs)
  {
    if gs != [] {
      var n := |gs| - 1;
      CountSumGroups(ss[..n], gs[..n]);
      CountSumSnoc(ss[..n], ss[n]);
      assert ss[..n] + [ss[n]] == ss;
    }
  }

  lemma {:induction false} CountSumSnoc(ss: seq<Summary>, s: Summary)
    ensures CountSum(ss + [s]) == CountSum(ss) + s.purchaseCount
  {
    if ss != [] {
      CountSumSnoc(ss[1..], s);
      assert (ss + [s])[1..] == ss[1..] + [s];
    }
  }

  /** The purchase counts of the summaries add up to the number of item rows. */
  lemma PurchaseCountsAddUp(rows: seq<ItemRow>)
    ensures CountSum(ItemsSummary(rows)) == |rows|
  {
    var ks := KeyedRows(rows);
    var gs := Grouped(ks);
    GroupedWellFormed(ks);
    GroupedCount(ks);
    CountSumGroups(Summaries(gs), gs);
    CountSumPermutation(ItemsSummary(rows), Summaries(gs));
  }

  // ---------------------------------------------------------------------
  // Price history

  /** An `ItemPriceEntry`. */
  datatype PriceEntry = PriceEntry(
    id: string,
    date: string,
    unitPrice: real,
    quantity: real,
    transactionDescription: string,
    currency: Currency)

  function EntryOf(r: ItemRow): PriceEntry {
    PriceEntry(r.id, r.date, r.unitPrice, r.quantity, r.description, r.currency)
  }

  function EntryDate(e: PriceEntry): string {
    e.date
  }

  /** `getItemPriceHistory` over the rows the query returned: their entries, sorted by date. */
  function PriceHistory(rows: seq<ItemRow>): (r: seq<PriceEntry>)
    ensures SortedBy(r, EntryDate)
    ensures multiset(r) == multiset(seq(|rows|, i requires 0 <= i < |rows| => EntryOf(rows[i])))
  {
    SortBy(seq(|rows|, i requires 0 <= i < |rows| => EntryOf(rows[i])), EntryDate)
  }

  /** Entries of the same date keep the order in which the query returned them (by id): the sort is stable. */
  lemma PriceHistorySameDate(rows: seq<ItemRow>, d: string)
    ensures WithKey(PriceHistory(rows), EntryDate, d)
      == WithKey(seq(|rows|, i requires 0 <= i < |rows| => EntryOf(rows[i])), EntryDate, d)
  {
    SortByStable(seq(|rows|, i requires 0 <= i < |rows| => EntryOf(rows[i])), EntryDate, d);
  }
}
