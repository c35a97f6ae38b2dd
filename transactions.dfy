/**
 * The ledger-entry service: create, update and delete of an entry, each
 * followed by the read-modify-write of the owning account's balance in the
 * entry's currency (`+amount` for income, `-amount` for expense and
 * transfer), plus the income/expense statistics.
 *
 * The remote store is an in-memory `Ledger` object. What the store may do
 * wrong is an explicit argument of every operation: a `StoreFault` for the
 * writes whose errors are thrown, and a flag per balance write whose failure
 * the code ignores.
 */
module Transactions {
  import opened Wrappers
  import opened Domain

  /** What an entry adds to account `a`'s balance in currency `c`. */
  function Effect(e: Entry, a: AccountId, c: Currency): real {
    if e.data.accountId == a && e.data.currency == c then Delta(e.data.txType, e.data.amount) else 0.0
  }

  /** The sum of the signed contributions of `entries` to account `a` in currency `c`. */
  function Contribution(entries: seq<Entry>, a: AccountId, c: Currency): real {
    if entries == [] then 0.0
    else Contribution(entries[..|entries| - 1], a, c) + Effect(entries[|entries| - 1], a, c)
  }

  /**
   * The balance invariant: every account's balance, in each currency, equals its opening
   * balance plus the signed contributions of the live entries on that account and currency.
   */
  ghost predicate Consistent(accounts: map<AccountId, Balance>, opening: map<AccountId, Balance>, entries: seq<Entry>) {
    && accounts.Keys == opening.Keys
    && forall a, c | a in accounts :: accounts[a].Get(c) == opening[a].Get(c) + Contribution(entries, a, c)
  }

  /**
   * `updateAccountBalance(accountId, amount, currency, type)` on the accounts table:
   * adds `Delta(type, amount)` to the field for `currency` of that account; a missing account is left alone.
   */
  function ApplyDelta(accounts: map<AccountId, Balance>, accountId: AccountId, amount: real, currency: Currency, t: TxType)
    : (r: map<AccountId, Balance>)
    ensures r.Keys == accounts.Keys
    ensures accountId in accounts ==> r[accountId].Get(currency) == accounts[accountId].Get(currency) + Delta(t, amount)
    ensures forall a, c | a in accounts && (a != accountId || c != currency) :: r[a].Get(c) == accounts[a].Get(c)
  {
    if accountId in accounts then accounts[accountId := accounts[accountId].Add(currency, Delta(t, amount))]
    else accounts
  }

  // ---------------------------------------------------------------------
  // Contributions under the three changes the service makes to the entry set

  lemma ContributionAppend(entries: seq<Entry>, e: Entry, a: AccountId, c: Currency)
    ensures Contribution(entries + [e], a, c) == Contribution(entries, a, c) + Effect(e, a, c)
  {
    assert (entries + [e])[..|entries|] == entries;
  }

  /** Removing the entry at position `k` takes away exactly its effect. */
  lemma {:induction false} ContributionRemove(entries: seq<Entry>, k: nat, a: AccountId, c: Currency)
    requires k < |entries|
    ensures Contribution(entries[..k] + entries[k + 1..], a, c) == Contribution(entries, a, c) - Effect(entries[k], a, c)
    decreases |entries|
  {
    var n := |entries|;
    var rest := entries[..k] + entries[k + 1..];
    if k == n - 1 {
      assert rest == entries[..n - 1];
    } else {
      var init := entries[..n - 1];
      var last := entries[n - 1];
      ContributionRemove(init, k, a, c);
      assert init[k] == entries[k];
      assert rest == (init[..k] + init[k + 1..]) + [last];
      ContributionAppend(init[..k] + init[k + 1..], last, a, c);
      assert entries == init + [last];
      ContributionAppend(init, last, a, c);
    }
  }

  /** Replacing the entry at position `k` swaps its effect for the new entry's. */
  lemma {:induction false} ContributionReplace(entries: seq<Entry>, k: nat, e: Entry, a: AccountId, c: Currency)
    requires k < |entries|
    ensures Contribution(entries[k := e], a, c) == Contribution(entries, a, c) - Effect(entries[k], a, c) + Effect(e, a, c)
    decreases |entries|
  {
    var n := |entries|;
    var next := entries[k := e];
    if k == n - 1 {
      assert next[..n - 1] == entries[..n - 1];
    } else {
      ContributionReplace(entries[..n - 1], k, e, a, c);
      assert next[..n - 1] == entries[..n - 1][k := e];
    }
  }

  // ---------------------------------------------------------------------
  // The invariant is kept by each of the three fault-free operations

  /** Create: appending an entry and applying its delta keeps the balances consistent. */
  lemma CreateKeepsConsistent(accounts: map<AccountId, Balance>, opening: map<AccountId, Balance>, entries: seq<Entry>, e: Entry)
    requires Consistent(accounts, opening, entries)
    ensures Consistent(ApplyDelta(accounts, e.data.accountId, e.data.amount, e.data.currency, e.data.txType), opening, entries + [e])
  {
    forall a, c | a in accounts {
      ContributionAppend(entries, e, a, c);
    }
  }

  /** Delete: removing an entry and applying its reversed delta keeps the balances consistent. */
  lemma DeleteKeepsConsistent(accounts: map<AccountId, Balance>, opening: map<AccountId, Balance>, entries: seq<Entry>, k: nat)
    requires k < |entries| && Consistent(accounts, opening, entries)
    ensures var e := entries[k];
      Consistent(ApplyDelta(accounts, e.data.accountId, e.data.amount, e.data.currency, ReverseType(e.data.txType)),
                 opening, entries[..k] + entries[k + 1..])
  {
    forall a, c | a in accounts {
      ContributionRemove(entries, k, a, c);
    }
  }

  /** Update: reversing the original's delta, then applying the new one, keeps the balances consistent. */
  lemma UpdateKeepsConsistent(accounts: map<AccountId, Balance>, opening: map<AccountId, Balance>, entries: seq<Entry>, k: nat, e: Entry)
    requires k < |entries| && Consistent(accounts, opening, entries)
    ensures var o := entries[k];
      var reversed := ApplyDelta(accounts, o.data.accountId, o.data.amount, o.data.currency, ReverseType(o.data.txType));
      Consistent(ApplyDelta(reversed, e.data.accountId, e.data.amount, e.data.currency, e.data.txType), opening, entries[k := e])
  {
    forall a, c | a in accounts {
      ContributionReplace(entries, k, e, a, c);
    }
  }

  /** Applying an entry's delta and then its reversed delta restores every balance exactly. */
  lemma ReverseRestores(accounts: map<AccountId, Balance>, accountId: AccountId, amount: real, currency: Currency, t: TxType)
    ensures ApplyDelta(ApplyDelta(accounts, accountId, amount, currency, t), accountId, amount, currency, ReverseType(t)) == accounts
  {
    var once := ApplyDelta(accounts, accountId, amount, currency, t);
    var twice := ApplyDelta(once, accountId, amount, currency, ReverseType(t));
    forall a | a in accounts ensures twice[a] == accounts[a] {
      assert twice[a].Get(USD) == accounts[a].Get(USD);
      assert twice[a].Get(COP) == accounts[a].Get(COP);
    }
  }

  /**
   * A lost balance write breaks the invariant: once an entry that moves its account's balance is
   * recorded while the balances stay as they were, they no longer match the entries.
   */
  lemma LostWriteBreaksBalance(accounts: map<AccountId, Balance>, opening: map<AccountId, Balance>, entries: seq<Entry>, e: Entry)
    requires Consistent(accounts, opening, entries)
    requires e.data.accountId in accounts && e.data.amount != 0.0
    ensures !Consistent(accounts, opening, entries + [e])
  {
    ContributionAppend(entries, e, e.data.accountId, e.data.currency);
  }

  // ---------------------------------------------------------------------
  // The store

  /** What the store answers to the writes of one operation. */
  datatype StoreFault =
    | NoFault
      /** The write of the entry row itself is refused: nothing changes and the operation throws. */
    | RecordWriteFails(message: string)
      /** The entry row is written but writing its items is refused: the operation throws before any balance update. */
    | ItemsWriteFails(message: string)

  /** The fields an update may carry; an absent field keeps the stored value (`updates.x ?? original.x`). */
  datatype EntryPatch = EntryPatch(
    date: Option<string>,
    description: Option<string>,
    txType: Option<TxType>,
    amount: Option<real>,
    currency: Option<Currency>,
    accountId: Option<AccountId>,
    categoryId: Option<Option<CategoryId>>,
    budgetId: Option<Option<string>>,
    merchant: Option<Option<string>>,
    notes: Option<Option<string>>)

  /** The stored fields after an update. */
  function Patched(d: Draft, p: EntryPatch): (r: Draft)
    ensures r.userId == d.userId
    ensures r.txType == p.txType.GetOr(d.txType) && r.amount == p.amount.GetOr(d.amount)
    ensures r.currency == p.currency.GetOr(d.currency) && r.accountId == p.accountId.GetOr(d.accountId)
  {
    Draft(d.userId, p.date.GetOr(d.date), p.description.GetOr(d.description), p.txType.GetOr(d.txType),
          p.amount.GetOr(d.amount), p.currency.GetOr(d.currency), p.accountId.GetOr(d.accountId),
          p.categoryId.GetOr(d.categoryId), p.budgetId.GetOr(d.budgetId), p.merchant.GetOr(d.merchant),
          p.notes.GetOr(d.notes))
  }

  /** Position of the entry with id `id`, if it is live. */
  function Find(entries: seq<Entry>, id: EntryId): (k: Option<nat>)
    ensures k.Some? ==> k.value < |entries| && entries[k.value].id == id
    ensures k.None? ==> forall j | 0 <= j < |entries| :: entries[j].id != id
  {
    if entries == [] then None
    else if entries[|entries| - 1].id == id then Some(|entries| - 1)
    else Find(entries[..|entries| - 1], id)
  }

  class Ledger {
    /** The `accounts` table: id to (`balance_usd`, `balance_cop`). */
    var accounts: map<AccountId, Balance>
    /** The live rows of the `transactions` table. */
    var entries: seq<Entry>
    /** The id the store gives the next inserted entry. */
    var nextId: nat
    /** The balances before any entry was recorded. */
    ghost var opening: map<AccountId, Balance>

    ghost predicate Valid()
      reads this
    {
      && Consistent(accounts, opening, entries)
      && (forall k | 0 <= k < |entries| :: entries[k].id < nextId)
      && (forall i, j | 0 <= i < j < |entries| :: entries[i].id != entries[j].id)
    }

    constructor (balances: map<AccountId, Balance>)
      ensures Valid()
      ensures accounts == balances && opening == balances && entries == []
    {
      accounts := balances;
      opening := balances;
      entries := [];
      nextId := 0;
    }

    /**
     * `updateAccountBalance`: read the account's balances, add the signed amount to one currency,
     * write back. `lost` is the store's answer that the code never looks at: the read fails (and is
     * taken for a missing account) or the write is refused. Either way nothing changes and no
     * error reaches the caller.
     */
    method UpdateAccountBalance(accountId: AccountId, amount: real, currency: Currency, t: TxType, lost: bool)
      modifies this`accounts
      ensures accounts == if lost then old(accounts) else ApplyDelta(old(accounts), accountId, amount, currency, t)
    {
      if lost || accountId !in accounts {
        return;
      }
      var balance := accounts[accountId];
      var multiplier := if t == Income then 1.0 else -1.0;
      if currency == USD {
        balance := Balance(balance.usd + amount * multiplier, balance.cop);
      } else {
        balance := Balance(balance.usd, balance.cop + amount * multiplier);
      }
      accounts := accounts[accountId := balance];
    }

    /**
     * `createTransaction`: insert the row (and its items), then apply the entry's delta once.
     * A refused items write leaves the row in place with no balance update; a lost balance write
     * (`balanceLost`) leaves the balances as they were while the creation still succeeds.
     */
    method CreateTransaction(d: Draft, items: seq<Item>, fault: StoreFault, balanceLost: bool) returns (r: Result<EntryId>)
      requires Valid()
      modifies this
      ensures opening == old(opening)
      ensures fault.RecordWriteFails? ==>
        r == Failure(fault.message) && entries == old(entries) && accounts == old(accounts) && nextId == old(nextId)
      ensures fault.ItemsWriteFails? && items != [] ==>
        && r == Failure(fault.message) && nextId == old(nextId) + 1
        && entries == old(entries) + [Entry(old(nextId), d, [])] && accounts == old(accounts)
      ensures (fault.NoFault? || (fault.ItemsWriteFails? && items == [])) ==>
        && r == Success(old(nextId)) && nextId == old(nextId) + 1
        && entries == old(entries) + [Entry(old(nextId), d, items)]
        && accounts == if balanceLost then old(accounts) else ApplyDelta(old(accounts), d.accountId, d.amount, d.currency, d.txType)
      ensures fault.RecordWriteFails? || (!(fault.ItemsWriteFails? && items != []) && !balanceLost) ==> Valid()
    {
      if fault.RecordWriteFails? {
        return Failure(fault.message);
      }
      var id := nextId;
      nextId := nextId + 1;
      if items != [] && fault.ItemsWriteFails? {
        entries := entries + [Entry(id, d, [])];
        return Failure(fault.message);
      }
      CreateKeepsConsistent(accounts, opening, entries, Entry(id, d, items));
      entries := entries + [Entry(id, d, items)];
      UpdateAccountBalance(d.accountId, d.amount, d.currency, d.txType, balanceLost);
      r := Success(id);
    }

    /**
     * `updateTransaction`: fetch the original, write the new fields (and items, when given), then
     * reverse the original's delta on its account and currency and apply the new entry's delta.
     * Either balance write may be lost (`reverseLost`, `applyLost`) without the update failing.
     */
    method UpdateTransaction(id: EntryId, p: EntryPatch, items: Option<seq<Item>>, fault: StoreFault,
                             reverseLost: bool, applyLost: bool) returns (r: Result<Draft>)
      requires Valid()
      modifies this
      ensures opening == old(opening) && nextId == old(nextId)
      ensures Find(old(entries), id).None? ==>
        r.Failure? && entries == old(entries) && accounts == old(accounts)
      ensures Find(old(entries), id).Some? ==>
        var k := Find(old(entries), id).value;
        var o := old(entries)[k];
        var n := Patched(o.data, p);
        && (fault.RecordWriteFails? ==> r == Failure(fault.message) && entries == old(entries) && accounts == old(accounts))
        && (fault.ItemsWriteFails? && items.Some? ==>
              r == Failure(fault.message) && entries == old(entries)[k := Entry(id, n, o.items)] && accounts == old(accounts))
        && ((fault.NoFault? || (fault.ItemsWriteFails? && items.None?)) ==>
              && r == Success(n)
              && entries == old(entries)[k := Entry(id, n, items.GetOr(o.items))]
              && var reversed := if reverseLost then old(accounts)
                   else ApplyDelta(old(accounts), o.data.accountId, o.data.amount, o.data.currency, ReverseType(o.data.txType));
                 accounts == if applyLost then reversed else ApplyDelta(reversed, n.accountId, n.amount, n.currency, n.txType))
      ensures !(fault.ItemsWriteFails? && items.Some?) && !reverseLost && !applyLost ==> Valid()
    {
      var found := Find(entries, id);
      if found.None? {
        return Failure("transaction not found");
      }
      if fault.RecordWriteFails? {
        return Failure(fault.message);
      }
      var k := found.value;
      var original := entries[k];
      var n := Patched(original.data, p);
      if items.Some? && fault.ItemsWriteFails? {
        entries := entries[k := Entry(id, n, original.items)];
        return Failure(fault.message);
      }
      UpdateKeepsConsistent(accounts, opening, entries, k, Entry(id, n, items.GetOr(original.items)));
      entries := entries[k := Entry(id, n, items.GetOr(original.items))];
      UpdateAccountBalance(original.data.accountId, original.data.amount, original.data.currency, ReverseType(original.data.txType), reverseLost);
      UpdateAccountBalance(n.accountId, n.amount, n.currency, n.txType, applyLost);
      r := Success(n);
    }

    /**
     * `deleteTransaction`: fetch the entry, delete its row, then reverse its delta with its stored
     * amount, currency and account. A lost balance write (`balanceLost`) still reports success.
     */
    method DeleteTransaction(id: EntryId, fault: StoreFault, balanceLost: bool) returns (r: Result<bool>)
      requires Valid()
      modifies this
      ensures (Find(old(entries), id).None? || fault.RecordWriteFails? || !balanceLost) ==> Valid()
      ensures opening == old(opening) && nextId == old(nextId)
      ensures (Find(old(entries), id).None? || fault.RecordWriteFails?) ==>
        r.Failure? && entries == old(entries) && accounts == old(accounts)
      ensures Find(old(entries), id).Some? && !fault.RecordWriteFails? ==>
        var k := Find(old(entries), id).value;
        var e := old(entries)[k];
        && r == Success(true)
        && entries == old(entries)[..k] + old(entries)[k + 1..]
        && accounts == if balanceLost then old(accounts)
           else ApplyDelta(old(accounts), e.data.accountId, e.data.amount, e.data.currency, ReverseType(e.data.txType))
    {
      var found := Find(entries, id);
      if found.None? {
        return Failure("transaction not found");
      }
      if fault.RecordWriteFails? {
        return Failure(fault.message);
      }
      var k := found.value;
      var e := entries[k];
      DeleteKeepsConsistent(accounts, opening, entries, k);
      entries := entries[..k] + entries[k + 1..];
      UpdateAccountBalance(e.data.accountId, e.data.amount, e.data.currency, ReverseType(e.data.txType), balanceLost);
      r := Success(true);
    }
  }

  // ---------------------------------------------------------------------
  // Scenario lemmas on the balance effects

  /**
   * An update that keeps type, amount, currency and account leaves every balance as it was:
   * the reversal and the re-application cancel.
   */
  lemma UnchangedUpdateKeepsBalances(accounts: map<AccountId, Balance>, o: Draft, p: EntryPatch)
    requires var n := Patched(o, p);
      n.txType == o.txType && n.amount == o.amount && n.currency == o.currency && n.accountId == o.accountId
    ensures var n := Patched(o, p);
      ApplyDelta(ApplyDelta(accounts, o.accountId, o.amount, o.currency, ReverseType(o.txType)),
                 n.accountId, n.amount, n.currency, n.txType) == accounts
  {
    var reversed := ApplyDelta(accounts, o.accountId, o.amount, o.currency, ReverseType(o.txType));
    ReverseRestores(accounts, o.accountId, o.amount, o.currency, ReverseType(o.txType));
    assert ReverseType(ReverseType(o.txType)) != Income <==> o.txType != Income;
    var back := ApplyDelta(reversed, o.accountId, o.amount, o.currency, o.txType);
    forall a | a in accounts ensures back[a] == accounts[a] {
      assert back[a].Get(USD) == accounts[a].Get(USD);
      assert back[a].Get(COP) == accounts[a].Get(COP);
    }
  }

  /**
   * Moving an entry to another currency or account (same type and amount) takes its signed
   * amount off the old account/currency and puts exactly that amount on the new one.
   */
  lemma MoveShiftsSignedAmount(accounts: map<AccountId, Balance>, o: Draft, p: EntryPatch)
    requires var n := Patched(o, p);
      n.txType == o.txType && n.amount == o.amount && (n.currency != o.currency || n.accountId != o.accountId)
    requires o.accountId in accounts && p.accountId.GetOr(o.accountId) in accounts
    ensures var n := Patched(o, p);
      var after := ApplyDelta(ApplyDelta(accounts, o.accountId, o.amount, o.currency, ReverseType(o.txType)),
                              n.accountId, n.amount, n.currency, n.txType);
      && after[o.accountId].Get(o.currency) == accounts[o.accountId].Get(o.currency) - Delta(o.txType, o.amount)
      && after[n.accountId].Get(n.currency) == accounts[n.accountId].Get(n.currency) + Delta(o.txType, o.amount)
      && forall a, c | a in accounts && (a, c) != (o.accountId, o.currency) && (a, c) != (n.accountId, n.currency) ::
           after[a].Get(c) == accounts[a].Get(c)
  {
  }

  // ---------------------------------------------------------------------
  // getStats

  /** The income/expense totals per currency of a set of entries and the net of each currency. */
  datatype Stats = Stats(incomeUsd: real, incomeCop: real, expenseUsd: real, expenseCop: real, balanceUsd: real, balanceCop: real)

  /** The total amount of the rows of type `t` in currency `c`. */
  function Total(rows: seq<Draft>, t: TxType, c: Currency): real {
    if rows == [] then 0.0
    else Total(rows[..|rows| - 1], t, c) + (if rows[|rows| - 1].txType == t && rows[|rows| - 1].currency == c then rows[|rows| - 1].amount else 0.0)
  }

  /**
   * `getStats` over the rows the query returns: income and expense totals per currency;
   * transfers count as neither; each balance is income minus expense.
   */
  method GetStats(rows: seq<Draft>) returns (s: Stats)
    ensures s.incomeUsd == Total(rows, Income, USD) && s.incomeCop == Total(rows, Income, COP)
    ensures s.expenseUsd == Total(rows, Expense, USD) && s.expenseCop == Total(rows, Expense, COP)
    ensures s.balanceUsd == s.incomeUsd - s.expenseUsd && s.balanceCop == s.incomeCop - s.expenseCop
  {
    s := Stats(0.0, 0.0, 0.0, 0.0, 0.0, 0.0);
    for i := 0 to |rows|
      invariant s.incomeUsd == Total(rows[..i], Income, USD) && s.incomeCop == Total(rows[..i], Income, COP)
      invariant s.expenseUsd == Total(rows[..i], Expense, USD) && s.expenseCop == Total(rows[..i], Expense, COP)
    {
      var t := rows[i];
      assert rows[..i + 1][..i] == rows[..i];
      if t.txType == Income {
        if t.currency == USD {
          s := s.(incomeUsd := s.incomeUsd + t.amount);
        } else {
          s := s.(incomeCop := s.incomeCop + t.amount);
        }
      } else if t.txType == Expense {
        if t.currency == USD {
          s := s.(expenseUsd := s.expenseUsd + t.amount);
        } else {
          s := s.(expenseCop := s.expenseCop + t.amount);
        }
      }
    }
    assert rows[..|rows|] == rows;
    s := s.(balanceUsd := s.incomeUsd - s.expenseUsd, balanceCop := s.incomeCop - s.expenseCop);
  }

  /** Adding a transfer changes no income or expense total. */
  lemma TransfersNotCounted(rows: seq<Draft>, x: Draft, t: TxType, c: Currency)
    requires x.txType == Transfer && t != Transfer
    ensures Total(rows + [x], t, c) == Total(rows, t, c)
  {
    assert (rows + [x])[..|rows|] == rows;
  }
}
