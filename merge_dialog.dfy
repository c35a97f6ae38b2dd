/**
 * The merge dialog: several entries become one whose amount is their total and whose
 * receipt has one line per source entry; then the sources are deleted one by one.
 *
 * The store calls run in order, each with its own fault argument; the first refused
 * call ends the merge (the source's `try`/`catch`). Nothing is rolled back: a failed
 * delete leaves the merged entry and the sources not yet deleted in place.
 */
module MergeDialog {
  import opened Wrappers
  import opened Text
  import opened Domain
  import opened Lists
  import opened Transactions
  import opened TransactionsContent

  // ---------------------------------------------------------------------
  // What the dialog shows and writes

  /** `transactions.reduce((sum, tx) => sum + tx.amount, 0)`. */
  function TotalAmount(txs: seq<Entry>): real {
    if txs == [] then 0.0 else TotalAmount(txs[..|txs| - 1]) + txs[|txs| - 1].data.amount
  }

  /** One receipt line per source entry: its description, quantity 1, its amount as the price. */
  function MergedItems(txs: seq<Entry>): (r: seq<Item>)
    ensures |r| == |txs|
    ensures forall i | 0 <= i < |txs| :: r[i] == Item(txs[i].data.description, 1.0, txs[i].data.amount)
  {
    seq(|txs|, i requires 0 <= i < |txs| => Item(txs[i].data.description, 1.0, txs[i].data.amount))
  }

  /** The total of a receipt: the sum of quantity times price over its lines. */
  function ItemsTotal(items: seq<Item>): real {
    if items == [] then 0.0
    else ItemsTotal(items[..|items| - 1]) + items[|items| - 1].quantity * items[|items| - 1].unitPrice
  }

  /** The merged receipt adds up to the merged amount. */
  lemma {:induction false} MergedItemsAddUp(txs: seq<Entry>)
    ensures ItemsTotal(MergedItems(txs)) == TotalAmount(txs)
  {
    if txs != [] {
      var init := txs[..|txs| - 1];
      MergedItemsAddUp(init);
      assert MergedItems(txs)[..|txs| - 1] == MergedItems(init);
    }
  }

  /** The description used when the user leaves the field empty. */
  function DefaultDescription(n: nat): string {
    "Agrupacion de " + NatToString(n) + " transacciones"
  }

  /** The entry the dialog creates: the total amount, the type, currency, account, category, budget and date of the first source. */
  function MergedDraft(txs: seq<Entry>, userId: string, description: string): (d: Draft)
    requires txs != []
    ensures d.userId == userId && d.amount == TotalAmount(txs)
    ensures var f := txs[0].data;
      && d.txType == f.txType && d.currency == f.currency && d.accountId == f.accountId
      && d.categoryId == f.categoryId && d.budgetId == f.budgetId && d.date == f.date
    ensures d.description == (if description == "" then DefaultDescription(|txs|) else description)
    ensures d.merchant.None? && d.notes.None?
  {
    var f := txs[0].data;
    Draft(userId, f.date, if description == "" then DefaultDescription(|txs|) else description,
          f.txType, TotalAmount(txs), f.currency, f.accountId, f.categoryId, f.budgetId, None, None)
  }

  /** What the dialog shows before the merge. */
  datatype Preview = Preview(first: Entry, totalAmount: real, items: seq<Item>)

  /** The dialog renders nothing for fewer than two entries; otherwise it shows the first entry, the total and the lines. */
  function ShowPreview(txs: seq<Entry>): (p: Option<Preview>)
    ensures p.None? <==> |txs| < 2
    ensures p.Some? ==>
      (p.value.first == txs[0] && p.value.totalAmount == ItemsTotal(p.value.items) && p.value.items == MergedItems(txs))
  {
    MergedItemsAddUp(txs);
    if |txs| < 2 then None else Some(Preview(txs[0], TotalAmount(txs), MergedItems(txs)))
  }

  // ---------------------------------------------------------------------
  // Balances

  /**
   * Entries on one account, currency and type add to the balances exactly what one entry of
   * their total amount on that account, currency and type adds.
   */
  lemma {:induction false} UniformContribution(txs: seq<Entry>, acc: AccountId, cur: Currency, t: TxType, a: AccountId, c: Currency)
    requires forall i | 0 <= i < |txs| :: txs[i].data.accountId == acc && txs[i].data.currency == cur && txs[i].data.txType == t
    ensures Contribution(txs, a, c) == if a == acc && c == cur then Delta(t, TotalAmount(txs)) else 0.0
  {
    if txs != [] {
      UniformContribution(txs[..|txs| - 1], acc, cur, t, a, c);
    }
  }

  /** All entries are booked like the first: same account, currency and type. */
  predicate OneBooking(txs: seq<Entry>)
    requires txs != []
  {
    forall i | 0 <= i < |txs| ::
      txs[i].data.accountId == txs[0].data.accountId && txs[i].data.currency == txs[0].data.currency
      && txs[i].data.txType == txs[0].data.txType
  }

  /** Entries booked alike move every balance by exactly what the merged entry moves it by. */
  lemma MergedBookingMatches(txs: seq<Entry>, userId: string, description: string, id: EntryId, a: AccountId, c: Currency)
    requires txs != [] && OneBooking(txs)
    ensures Effect(Entry(id, MergedDraft(txs, userId, description), MergedItems(txs)), a, c) == Contribution(txs, a, c)
  {
    var f := txs[0].data;
    UniformContribution(txs, f.accountId, f.currency, f.txType, a, c);
  }

  /** What the strict checks let through is two or more entries booked alike. */
  lemma StrictOpenBooksAlike(txs: seq<Entry>)
    requires MergeCheckStrict(txs) == Open
    ensures |txs| >= 2 && OneBooking(txs)
  {
    MergeCheckStrictMeaning(txs);
    forall i | 0 <= i < |txs|
      ensures txs[i].data.accountId == txs[0].data.accountId && txs[i].data.currency == txs[0].data.currency
        && txs[i].data.txType == txs[0].data.txType
    {
      assert AccountOf(txs[i]) == AccountOf(txs[0]);
      assert CurrencyOf(txs[i]) == CurrencyOf(txs[0]);
      assert TypeOf(txs[i]) == TypeOf(txs[0]);
    }
  }

  /**
   * When the strict checks let the merge through, the merged entry moves every balance by
   * exactly what its sources moved it by, so creating it and deleting them leaves the balances as they were.
   */
  lemma MergePreservesBalances(txs: seq<Entry>, userId: string, description: string, id: EntryId, a: AccountId, c: Currency)
    requires MergeCheckStrict(txs) == Open
    ensures |txs| >= 2
    ensures Effect(Entry(id, MergedDraft(txs, userId, description), MergedItems(txs)), a, c) == Contribution(txs, a, c)
  {
    StrictOpenBooksAlike(txs);
    MergedBookingMatches(txs, userId, description, id, a, c);
  }

  /** Two expenses of one day, account and category: 10 USD and 40000 COP. */
  function MixedCurrencies(): seq<Entry> {
    [ Entry(1, Draft("u", "2025-01-01", "cafe", Expense, 10.0, USD, "acc", None, None, None, None), []),
      Entry(2, Draft("u", "2025-01-01", "almuerzo", Expense, 40000.0, COP, "acc", None, None, None, None), []) ]
  }

  /** The checks as written let the two entries in two currencies through. */
  lemma MixedCurrenciesPass()
    ensures MergeCheck(MixedCurrencies()) == Open
  {
    var sel := MixedCurrencies();
    MergeCheckMeaning(sel);
    assert Uniform(sel, DateOf) && Uniform(sel, CategoryKey) && Uniform(sel, AccountOf) && Uniform(sel, TypeOf);
  }

  /** The strict checks stop them with the currency toast. */
  lemma MixedCurrenciesRefused()
    ensures MergeCheckStrict(MixedCurrencies()) == Refuse(CurrencyMismatch)
  {
    var sel := MixedCurrencies();
    MixedCurrenciesPass();
    assert CurrencyOf(sel[1]) != CurrencyOf(sel[0]);
    DistinctSize(sel, CurrencyOf);
  }

  /**
   * Merged as written, the two entries book their total in the first one's currency: the USD
   * balance of the account falls by 40010 instead of 10.
   */
  lemma MixedCurrenciesMisbooked(id: EntryId)
    ensures Effect(Entry(id, MergedDraft(MixedCurrencies(), "u", ""), MergedItems(MixedCurrencies())), "acc", USD) == -40010.0
    ensures Contribution(MixedCurrencies(), "acc", USD) == -10.0
  {
    var sel := MixedCurrencies();
    assert sel[..1] == [sel[0]];
    assert sel[..1][..0] == [];
    assert TotalAmount(sel[..1]) == 10.0;
    assert TotalAmount(sel) == 40010.0;
  }

  // ---------------------------------------------------------------------
  // The store calls

  /** A call the merge makes on the store, in the order made. */
  datatype StoreCall = CreateCall(d: Draft) | DeleteCall(id: EntryId)

  /** The toast the merge ends with. */
  datatype Toast = SuccessToast(message: string) | ErrorToast(message: string)

  const MergeFailed := "Error al agrupar las transacciones"

  function MergedMessage(n: nat): string {
    NatToString(n) + " transacciones agrupadas correctamente"
  }

  /** The ids of `txs`. */
  function Ids(txs: seq<Entry>): (r: set<EntryId>)
    ensures forall i | 0 <= i < |txs| :: txs[i].id in r
  {
    if txs == [] then {} else Ids(txs[..|txs| - 1]) + {txs[|txs| - 1].id}
  }

  /** An id no entry of `txs` has is not among their ids. */
  lemma {:induction false} IdsMiss(txs: seq<Entry>, x: EntryId)
    requires forall i | 0 <= i < |txs| :: txs[i].id != x
    ensures x !in Ids(txs)
  {
    if txs != [] {
      IdsMiss(txs[..|txs| - 1], x);
    }
  }

  /** The delete calls for `txs`, in list order. */
  function Deletes(txs: seq<Entry>): (r: seq<StoreCall>)
    ensures |r| == |txs| && forall i | 0 <= i < |txs| :: r[i] == DeleteCall(txs[i].id)
  {
    seq(|txs|, i requires 0 <= i < |txs| => DeleteCall(txs[i].id))
  }

  /** The entries whose id is not in `gone`, in order. */
  function Kept(es: seq<Entry>, gone: set<EntryId>): (r: seq<Entry>)
    ensures |r| <= |es|
  {
    if es == [] then []
    else Kept(es[..|es| - 1], gone) + (if es[|es| - 1].id in gone then [] else [es[|es| - 1]])
  }

  /** The position of the first refused delete, or the number of deletes when none is refused. */
  function FirstRefusal(faults: seq<StoreFault>): (n: nat)
    ensures n <= |faults|
    ensures forall j | 0 <= j < n :: !faults[j].RecordWriteFails?
    ensures n < |faults| ==> faults[n].RecordWriteFails?
  {
    if faults == [] then 0
    else if faults[0].RecordWriteFails? then 0
    else 1 + FirstRefusal(faults[1..])
  }

  predicate DistinctIds(es: seq<Entry>) {
    forall i, j | 0 <= i < j < |es| :: es[i].id != es[j].id
  }

  lemma KeptSnoc(es: seq<Entry>, x: Entry, gone: set<EntryId>)
    ensures Kept(es + [x], gone) == Kept(es, gone) + (if x.id !in gone then [x] else [])
  {
    assert (es + [x])[..|es|] == es;
  }

  /** Keeping from a concatenation keeps from each part, in order. */
  lemma {:induction false} KeptAppend(a: seq<Entry>, b: seq<Entry>, gone: set<EntryId>)
    ensures Kept(a + b, gone) == Kept(a, gone) + Kept(b, gone)
    decreases |b|
  {
    if b == [] {
      assert a + b == a;
    } else {
      var init := b[..|b| - 1];
      assert a + b == (a + init) + [b[|b| - 1]];
      assert b == init + [b[|b| - 1]];
      KeptAppend(a, init, gone);
      KeptSnoc(a + init, b[|b| - 1], gone);
      KeptSnoc(init, b[|b| - 1], gone);
    }
  }

  /** An entry whose id is not in `gone` is kept. */
  lemma {:induction false} KeptHas(es: seq<Entry>, gone: set<EntryId>, j: nat)
    requires j < |es| && es[j].id !in gone
    ensures es[j] in Kept(es, gone)
  {
    if j < |es| - 1 {
      KeptHas(es[..|es| - 1], gone, j);
    }
  }

  /** A kept entry was there before, and its id is not in `gone`. */
  lemma {:induction false} KeptFrom(es: seq<Entry>, gone: set<EntryId>, x: Entry)
    requires x in Kept(es, gone)
    ensures x in es && x.id !in gone
  {
    if es != [] {
      if x in Kept(es[..|es| - 1], gone) {
        KeptFrom(es[..|es| - 1], gone, x);
      }
    }
  }

  /** A list none of whose ids is in `gone` is kept whole. */
  lemma {:induction false} KeptNone(es: seq<Entry>, gone: set<EntryId>)
    requires forall i | 0 <= i < |es| :: es[i].id !in gone
    ensures Kept(es, gone) == es
  {
    if es != [] {
      KeptNone(es[..|es| - 1], gone);
    }
  }

  /** No entry but the one at `k` has its id. */
  predicate OnlyAt(es: seq<Entry>, k: nat)
    requires k < |es|
  {
    forall j | 0 <= j < |es| && j != k :: es[j].id != es[k].id
  }

  /** Removing the entry at `k`, whose id no other entry has, is keeping every entry but the one with its id. */
  lemma RemoveAtKept(es: seq<Entry>, k: nat)
    requires k < |es| && OnlyAt(es, k)
    ensures es[..k] + es[k + 1..] == Kept(es, {es[k].id})
  {
    var x := es[k];
    var gone := {x.id};
    var front, back := es[..k], es[k + 1..];
    FrontKept(es, k);
    BackKept(es, k);
    SplitAt(es, k);
    KeptSplit(front, x, back, gone);
  }

  lemma SplitAt<T>(s: seq<T>, k: nat)
    requires k < |s|
    ensures s == s[..k] + [s[k]] + s[k + 1..]
  {
  }

  lemma KeptSplit(front: seq<Entry>, x: Entry, back: seq<Entry>, gone: set<EntryId>)
    requires x.id in gone && Kept(front, gone) == front && Kept(back, gone) == back
    ensures Kept(front + [x] + back, gone) == front + back
  {
    KeptSnoc(front, x, gone);
    KeptAppend(front + [x], back, gone);
  }

  lemma FrontKept(es: seq<Entry>, k: nat)
    requires k < |es| && OnlyAt(es, k)
    ensures Kept(es[..k], {es[k].id}) == es[..k]
  {
    KeptNone(es[..k], {es[k].id});
  }

  lemma BackKept(es: seq<Entry>, k: nat)
    requires k < |es| && OnlyAt(es, k)
    ensures Kept(es[k + 1..], {es[k].id}) == es[k + 1..]
  {
    var back := es[k + 1..];
    forall i | 0 <= i < |back| ensures back[i].id !in {es[k].id} {
      assert back[i] == es[k + 1 + i];
    }
    KeptNone(back, {es[k].id});
  }

  /** Keeping twice keeps what neither set names. */
  lemma {:induction false} KeptTwice(es: seq<Entry>, a: set<EntryId>, b: set<EntryId>)
    ensures Kept(Kept(es, a), b) == Kept(es, a + b)
  {
    if es != [] {
      var init := es[..|es| - 1];
      var last := es[|es| - 1];
      KeptTwice(init, a, b);
      KeptAppend(Kept(init, a), if last.id in a then [] else [last], b);
      if last.id !in a {
        KeptSnoc([], last, b);
      }
    }
  }

  /** Reversing an entry's delta takes its effect off every balance. */
  lemma ReversedEffect(accounts: map<AccountId, Balance>, e: Entry, a: AccountId, c: Currency)
    requires a in accounts
    ensures ApplyDelta(accounts, e.data.accountId, e.data.amount, e.data.currency, ReverseType(e.data.txType))[a].Get(c)
      == accounts[a].Get(c) - Effect(e, a, c)
  {
  }

  /** Applying an entry's delta adds its effect to every balance. */
  lemma AppliedEffect(accounts: map<AccountId, Balance>, e: Entry, a: AccountId, c: Currency)
    requires a in accounts
    ensures ApplyDelta(accounts, e.data.accountId, e.data.amount, e.data.currency, e.data.txType)[a].Get(c)
      == accounts[a].Get(c) + Effect(e, a, c)
  {
  }

  /**
   * The loop of `handleMerge`: delete each source in list order, stopping at the first
   * refused delete. The deleted ones leave the store and take their effect off the balances;
   * `ok` says whether every delete went through.
   */
  method DeleteSources(ledger: Ledger, txs: seq<Entry>, faults: seq<StoreFault>) returns (ok: bool, calls: seq<StoreCall>)
    requires ledger.Valid()
    requires |faults| == |txs| && DistinctIds(txs)
    requires forall i | 0 <= i < |txs| :: txs[i] in ledger.entries
    modifies ledger
    ensures ledger.Valid() && ledger.nextId == old(ledger.nextId)
    ensures var n := FirstRefusal(faults);
      && (ok <==> n == |txs|)
      && calls == Deletes(txs[..if n < |txs| then n + 1 else n])
      && ledger.entries == Kept(old(ledger.entries), Ids(txs[..n]))
      && ledger.accounts.Keys == old(ledger.accounts).Keys
      && forall a, c | a in old(ledger.accounts) :: ledger.accounts[a].Get(c) == old(ledger.accounts)[a].Get(c) - Contribution(txs[..n], a, c)
  {
    var es0 := ledger.entries;
    ghost var accounts0 := ledger.accounts;
    ghost var n := FirstRefusal(faults);
    KeptNone(es0, Ids(txs[..0]));
    calls := [];
    var i := 0;
    while i < |txs|
      invariant 0 <= i <= n
      invariant ledger.Valid() && ledger.nextId == old(ledger.nextId)
      invariant calls == Deletes(txs[..i])
      invariant ledger.entries == Kept(es0, Ids(txs[..i]))
      invariant ledger.accounts.Keys == accounts0.Keys
      invariant forall a, c | a in accounts0 :: ledger.accounts[a].Get(c) == accounts0[a].Get(c) - Contribution(txs[..i], a, c)
    {
      var deleted := DeleteNext(ledger, es0, accounts0, txs, faults, i);
      DeletesStep(txs, i);
      calls := calls + [DeleteCall(txs[i].id)];
      if !deleted {
        ok := false;
        return;
      }
      i := i + 1;
    }
    ok := true;
    assert txs[..i] == txs;
  }

  /** Up to the first refusal, a delete is refused exactly at the first refusal. */
  lemma RefusalAt(faults: seq<StoreFault>, i: nat)
    requires i <= FirstRefusal(faults) && i < |faults|
    ensures faults[i].RecordWriteFails? <==> i == FirstRefusal(faults)
  {
  }

  lemma DeletesStep(txs: seq<Entry>, i: nat)
    requires i < |txs|
    ensures Deletes(txs[..i]) + [DeleteCall(txs[i].id)] == Deletes(txs[..i + 1])
  {
  }

  /** One more deleted source takes one more effect off the balances. */
  lemma ContributionStep(accounts0: map<AccountId, Balance>, before: map<AccountId, Balance>, after: map<AccountId, Balance>,
                         txs: seq<Entry>, i: nat)
    requires i < |txs| && before.Keys == accounts0.Keys && after.Keys == accounts0.Keys
    requires forall a, c | a in accounts0 :: before[a].Get(c) == accounts0[a].Get(c) - Contribution(txs[..i], a, c)
    requires forall a, c | a in accounts0 :: after[a].Get(c) == before[a].Get(c) - Effect(txs[i], a, c)
    ensures forall a, c | a in accounts0 :: after[a].Get(c) == accounts0[a].Get(c) - Contribution(txs[..i + 1], a, c)
  {
    assert txs[..i + 1] == txs[..i] + [txs[i]];
    forall a, c | a in accounts0
      ensures after[a].Get(c) == accounts0[a].Get(c) - Contribution(txs[..i + 1], a, c)
    {
      ContributionAppend(txs[..i], txs[i], a, c);
    }
  }

  /**
   * One turn of the loop: the delete of the `i`-th source. A refused delete (the first refusal
   * among the faults) changes nothing; otherwise the source leaves the store and its effect
   * leaves the balances.
   */
  method DeleteNext(ledger: Ledger, es0: seq<Entry>, ghost accounts0: map<AccountId, Balance>,
                    txs: seq<Entry>, faults: seq<StoreFault>, i: nat) returns (deleted: bool)
    requires ledger.Valid() && DistinctIds(txs) && i < |txs| == |faults| && i <= FirstRefusal(faults)
    requires forall j | 0 <= j < |txs| :: txs[j] in es0
    requires ledger.entries == Kept(es0, Ids(txs[..i]))
    requires ledger.accounts.Keys == accounts0.Keys
    requires forall a, c | a in accounts0 :: ledger.accounts[a].Get(c) == accounts0[a].Get(c) - Contribution(txs[..i], a, c)
    modifies ledger
    ensures ledger.Valid() && ledger.nextId == old(ledger.nextId)
    ensures ledger.accounts.Keys == accounts0.Keys
    ensures deleted <==> i < FirstRefusal(faults)
    ensures !deleted ==> ledger.entries == old(ledger.entries) && ledger.accounts == old(ledger.accounts)
    ensures deleted ==> ledger.entries == Kept(es0, Ids(txs[..i + 1]))
    ensures deleted ==> forall a, c | a in accounts0 ::
      ledger.accounts[a].Get(c) == accounts0[a].Get(c) - Contribution(txs[..i + 1], a, c)
  {
    RefusalAt(faults, i);
    var tx := txs[i];
    ghost var gone := Ids(txs[..i]);
    ghost var k := SourcePosition(ledger.entries, es0, txs, i);
    ghost var before := ledger.accounts;
    var res := ledger.DeleteTransaction(tx.id, faults[i], false);
    deleted := res.Success?;
    if deleted {
      KeptStep(es0, txs, i, k);
      forall a, c | a in before
        ensures ledger.accounts[a].Get(c) == before[a].Get(c) - Effect(tx, a, c)
      {
        ReversedEffect(before, tx, a, c);
      }
      ContributionStep(accounts0, before, ledger.accounts, txs, i);
    }
  }

  /** Deleting the `i`-th source from what is kept of the store keeps one id fewer. */
  lemma KeptStep(es0: seq<Entry>, txs: seq<Entry>, i: nat, k: nat)
    requires i < |txs|
    requires var es := Kept(es0, Ids(txs[..i])); k < |es| && DistinctIds(es) && es[k].id == txs[i].id
    ensures var es := Kept(es0, Ids(txs[..i])); es[..k] + es[k + 1..] == Kept(es0, Ids(txs[..i + 1]))
  {
    var gone := Ids(txs[..i]);
    var es := Kept(es0, gone);
    assert OnlyAt(es, k);
    RemoveAtKept(es, k);
    KeptTwice(es0, gone, {txs[i].id});
    IdsStep(txs, i);
  }

  lemma IdsStep(txs: seq<Entry>, i: nat)
    requires i < |txs|
    ensures Ids(txs[..i + 1]) == Ids(txs[..i]) + {txs[i].id}
  {
    assert txs[..i + 1][..i] == txs[..i];
  }

  /** Where the `i`-th source sits in the store while the loop runs: it is there and not yet deleted. */
  lemma SourcePosition(entries: seq<Entry>, es0: seq<Entry>, txs: seq<Entry>, i: nat) returns (k: nat)
    requires DistinctIds(entries) && DistinctIds(txs) && i < |txs|
    requires forall j | 0 <= j < |txs| :: txs[j] in es0
    requires entries == Kept(es0, Ids(txs[..i]))
    ensures Find(entries, txs[i].id) == Some(k) && entries[k] == txs[i]
  {
    var tx := txs[i];
    var j :| 0 <= j < |es0| && es0[j] == tx;
    forall i' | 0 <= i' < i ensures txs[..i][i'].id != tx.id {
      assert txs[..i][i'] == txs[i'];
    }
    IdsMiss(txs[..i], tx.id);
    KeptHas(es0, Ids(txs[..i]), j);
    var found := Find(entries, tx.id);
    var m :| 0 <= m < |entries| && entries[m] == tx;
    k := found.value;
    assert entries[k].id == entries[m].id;
  }

  /** Balances that moved by an entry's effect less its sources' effects, where the two agree, did not move. */
  lemma NetZero(before: map<AccountId, Balance>, after: map<AccountId, Balance>, m: Entry, txs: seq<Entry>)
    requires after.Keys == before.Keys
    requires forall a, c | a in before :: after[a].Get(c) == before[a].Get(c) + Effect(m, a, c) - Contribution(txs, a, c)
    requires forall a, c :: Effect(m, a, c) == Contribution(txs, a, c)
    ensures forall a | a in before :: after[a] == before[a]
  {
    forall a | a in before ensures after[a] == before[a] {
      assert after[a].Get(USD) == before[a].Get(USD);
      assert after[a].Get(COP) == before[a].Get(COP);
    }
  }

  /** Creating `m` and then deleting `txs[..n]` moves each balance by `m`'s effect less theirs. */
  lemma CreatedThenDeleted(accounts0: map<AccountId, Balance>, accounts1: map<AccountId, Balance>, accounts2: map<AccountId, Balance>,
                           m: Entry, txs: seq<Entry>, n: nat)
    requires n <= |txs|
    requires accounts1 == ApplyDelta(accounts0, m.data.accountId, m.data.amount, m.data.currency, m.data.txType)
    requires accounts2.Keys == accounts1.Keys
    requires forall a, c | a in accounts1 :: accounts2[a].Get(c) == accounts1[a].Get(c) - Contribution(txs[..n], a, c)
    ensures accounts2.Keys == accounts0.Keys
    ensures forall a, c | a in accounts0 :: accounts2[a].Get(c) == accounts0[a].Get(c) + Effect(m, a, c) - Contribution(txs[..n], a, c)
  {
    forall a, c | a in accounts0
      ensures accounts2[a].Get(c) == accounts0[a].Get(c) + Effect(m, a, c) - Contribution(txs[..n], a, c)
    {
      AppliedEffect(accounts0, m, a, c);
    }
  }

  /** An entry newer than every entry of the store is not among the sources, so deleting sources keeps it. */
  lemma MergedStays(es0: seq<Entry>, m: Entry, txs: seq<Entry>, n: nat)
    requires n <= |txs|
    requires forall i | 0 <= i < |txs| :: txs[i] in es0
    requires forall k | 0 <= k < |es0| :: es0[k].id < m.id
    ensures m in Kept(es0 + [m], Ids(txs[..n]))
  {
    forall i | 0 <= i < n ensures txs[..n][i].id != m.id {
      var k :| 0 <= k < |es0| && es0[k] == txs[i];
    }
    IdsMiss(txs[..n], m.id);
    KeptHas(es0 + [m], Ids(txs[..n]), |es0|);
  }

  /** After a merge of entries booked alike in which every delete went through, no balance has moved. */
  lemma BookedMergeNets(accounts0: map<AccountId, Balance>, accounts2: map<AccountId, Balance>,
                        txs: seq<Entry>, userId: string, description: string, m: Entry, n: nat)
    requires txs != [] && OneBooking(txs) && n == |txs|
    requires m == Entry(m.id, MergedDraft(txs, userId, description), MergedItems(txs))
    requires accounts2.Keys == accounts0.Keys
    requires forall a, c | a in accounts0 ::
      accounts2[a].Get(c) == accounts0[a].Get(c) + Effect(m, a, c) - Contribution(txs[..n], a, c)
    ensures forall a | a in accounts0 :: accounts2[a] == accounts0[a]
  {
    assert txs[..n] == txs;
    forall a, c ensures Effect(m, a, c) == Contribution(txs, a, c) {
      MergedBookingMatches(txs, userId, description, m.id, a, c);
    }
    NetZero(accounts0, accounts2, m, txs);
  }

  /**
   * The rest of `handleMerge` once the merged entry `m` is stored: the deletes, then the toast.
   * `es0` and `accounts0` are the store before the create.
   */
  method FinishMerge(ledger: Ledger, txs: seq<Entry>, deleteFaults: seq<StoreFault>,
                     ghost es0: seq<Entry>, ghost accounts0: map<AccountId, Balance>, ghost m: Entry)
    returns (toast: Toast, calls: seq<StoreCall>)
    requires ledger.Valid()
    requires |txs| >= 2 && |deleteFaults| == |txs| && DistinctIds(txs)
    requires forall i | 0 <= i < |txs| :: txs[i] in es0
    requires forall k | 0 <= k < |es0| :: es0[k].id < m.id
    requires ledger.entries == es0 + [m]
    requires ledger.accounts == ApplyDelta(accounts0, m.data.accountId, m.data.amount, m.data.currency, m.data.txType)
    modifies ledger
    ensures var n := FirstRefusal(deleteFaults);
      && ledger.Valid()
      && toast == (if n == |txs| then SuccessToast(MergedMessage(|txs|)) else ErrorToast(MergeFailed))
      && calls == Deletes(txs[..if n < |txs| then n + 1 else n])
      && ledger.entries == Kept(es0 + [m], Ids(txs[..n]))
      && m in ledger.entries
      && ledger.accounts.Keys == accounts0.Keys
      && (forall a, c | a in accounts0 ::
            ledger.accounts[a].Get(c) == accounts0[a].Get(c) + Effect(m, a, c) - Contribution(txs[..n], a, c))
  {
    ghost var accounts1 := ledger.accounts;
    var ok;
    ok, calls := DeleteSources(ledger, txs, deleteFaults);
    toast := if ok then SuccessToast(MergedMessage(|txs|)) else ErrorToast(MergeFailed);
    ghost var n := FirstRefusal(deleteFaults);
    CreatedThenDeleted(accounts0, accounts1, ledger.accounts, m, txs, n);
    MergedStays(es0, m, txs, n);
  }

  /**
   * `handleMerge`: create the merged entry, then delete the sources in list order. A refused
   * create ends the merge before any delete; a refused delete ends it with the merged entry
   * and the remaining sources in place. The balances then differ from the start exactly by the
   * merged entry's effect less the deleted sources' effects; when the sources are booked alike
   * and all are deleted, no balance has moved.
   */
  method HandleMerge(ledger: Ledger, txs: seq<Entry>, userId: string, description: string,
                     createFault: StoreFault, deleteFaults: seq<StoreFault>)
    returns (toast: Toast, calls: seq<StoreCall>)
    requires ledger.Valid()
    requires |txs| >= 2 && |deleteFaults| == |txs| && DistinctIds(txs)
    requires forall i | 0 <= i < |txs| :: txs[i] in ledger.entries
    modifies ledger
    ensures var d := MergedDraft(txs, userId, description);
      && (createFault.RecordWriteFails? ==>
            toast == ErrorToast(MergeFailed) && calls == [CreateCall(d)]
            && ledger.entries == old(ledger.entries) && ledger.accounts == old(ledger.accounts))
      && (createFault.ItemsWriteFails? ==>
            toast == ErrorToast(MergeFailed) && calls == [CreateCall(d)]
            && ledger.entries == old(ledger.entries) + [Entry(old(ledger.nextId), d, [])]
            && ledger.accounts == old(ledger.accounts))
    ensures createFault.NoFault? ==>
      var m := Entry(old(ledger.nextId), MergedDraft(txs, userId, description), MergedItems(txs));
      var n := FirstRefusal(deleteFaults);
      && ledger.Valid()
      && toast == (if n == |txs| then SuccessToast(MergedMessage(|txs|)) else ErrorToast(MergeFailed))
      && calls == [CreateCall(m.data)] + Deletes(txs[..if n < |txs| then n + 1 else n])
      && ledger.entries == Kept(old(ledger.entries) + [m], Ids(txs[..n]))
      && m in ledger.entries
      && ledger.accounts.Keys == old(ledger.accounts).Keys
      && (forall a, c | a in old(ledger.accounts) ::
            ledger.accounts[a].Get(c) == old(ledger.accounts)[a].Get(c) + Effect(m, a, c) - Contribution(txs[..n], a, c))
      && (OneBooking(txs) && n == |txs| ==>
            forall a | a in old(ledger.accounts) :: ledger.accounts[a] == old(ledger.accounts)[a])
  {
    var d := MergedDraft(txs, userId, description);
    var items := MergedItems(txs);
    ghost var m := Entry(ledger.nextId, d, items);
    ghost var es0 := ledger.entries;
    ghost var accounts0 := ledger.accounts;
    calls := [CreateCall(d)];
    var created := ledger.CreateTransaction(d, items, createFault, false);
    if created.Failure? {
      toast := ErrorToast(MergeFailed);
      return;
    }
    var deletes;
    toast, deletes := FinishMerge(ledger, txs, deleteFaults, es0, accounts0, m);
    calls := calls + deletes;
    ghost var n := FirstRefusal(deleteFaults);
    if OneBooking(txs) && n == |txs| {
      BookedMergeNets(accounts0, ledger.accounts, txs, userId, description, m, n);
    }
  }
}
