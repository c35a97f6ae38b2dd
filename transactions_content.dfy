/**
 * The transactions screen: the client-side search over descriptions, the
 * selection of entries to merge, and the checks that decide whether the
 * merge dialog may open.
 *
 * Rendering, toasts as pop-ups and the server-side filters are not part of
 * this model; a toast is recorded as the message it shows.
 */
module TransactionsContent {
  import opened Wrappers
  import opened Text
  import opened Domain
  import opened Lists

  // ---------------------------------------------------------------------
  // Search

  /** `tx.description.toLowerCase().includes(lower)`. */
  predicate Matches(e: Entry, lower: string) {
    Contains(ToLower(e.data.description), lower)
  }

  /** `filteredTransactions`: everything for an empty search, else the entries whose description contains it, ignoring case. */
  function FilteredTransactions(txs: seq<Entry>, search: string): (r: seq<Entry>)
    ensures search == "" ==> r == txs
    ensures search != "" ==> forall i | 0 <= i < |r| :: r[i] in txs && Contains(ToLower(r[i].data.description), ToLower(search))
    ensures search != "" ==> forall i | 0 <= i < |txs| && Contains(ToLower(txs[i].data.description), ToLower(search)) :: txs[i] in r
  {
    if search == "" then txs else Filter(txs, e => Matches(e, ToLower(search)))
  }

  /** The search keeps the list's order: searching two lists one after the other searches each. */
  lemma FilteredInOrder(a: seq<Entry>, b: seq<Entry>, search: string)
    ensures FilteredTransactions(a + b, search) == FilteredTransactions(a, search) + FilteredTransactions(b, search)
  {
    if search != "" {
      FilterAppend(a, b, e => Matches(e, ToLower(search)));
    }
  }

  // ---------------------------------------------------------------------
  // Selection

  /** The selection after `toggleSelect(id)`: `id` changes sides, every other id stays where it was. */
  function Toggled(s: set<EntryId>, id: EntryId): (r: set<EntryId>)
    ensures id in r <==> id !in s
    ensures forall x | x != id :: x in r <==> x in s
  {
    if id in s then s - {id} else s + {id}
  }

  /** Toggling the same id twice gives the selection back. */
  lemma ToggledTwice(s: set<EntryId>, id: EntryId)
    ensures Toggled(Toggled(s, id), id) == s
  {
  }

  /** `selectedTransactions`: the shown entries whose id is selected, in the order they are shown. */
  function SelectedTransactions(filtered: seq<Entry>, ids: set<EntryId>): (r: seq<Entry>)
    ensures forall i | 0 <= i < |r| :: r[i] in filtered && r[i].id in ids
    ensures forall i | 0 <= i < |filtered| && filtered[i].id in ids :: filtered[i] in r
  {
    Filter(filtered, (e: Entry) => e.id in ids)
  }

  /** Selecting keeps the list's order. */
  lemma SelectedInOrder(a: seq<Entry>, b: seq<Entry>, ids: set<EntryId>)
    ensures SelectedTransactions(a + b, ids) == SelectedTransactions(a, ids) + SelectedTransactions(b, ids)
  {
    FilterAppend(a, b, (e: Entry) => e.id in ids);
  }

  // ---------------------------------------------------------------------
  // The merge checks

  /** Whether the merge dialog opens, or the error toast that stops it. */
  datatype MergeVerdict = Open | Refuse(message: string)

  const TooFew := "Selecciona al menos 2 transacciones para agrupar"
  const DateMismatch := "Las transacciones deben tener la misma fecha para agruparlas"
  const CategoryMismatch := "Las transacciones deben tener la misma categoria para agruparlas"
  const AccountMismatch := "Las transacciones deben tener la misma cuenta para agruparlas"
  const TypeMismatch := "Las transacciones deben ser del mismo tipo para agruparlas"
  /** The toast of the corrected check only: the screen as written never compares currencies. */
  const CurrencyMismatch := "Las transacciones deben tener la misma moneda para agruparlas"

  /** `new Set(selected.map(key))`. */
  function Distinct<K(==)>(sel: seq<Entry>, key: Entry -> K): set<K> {
    set e | e in sel :: key(e)
  }

  function DateOf(e: Entry): string { e.data.date }
  /** `tx.category_id ?? "null"`: no category counts as one more value. */
  function CategoryKey(e: Entry): string { e.data.categoryId.GetOr("null") }
  function AccountOf(e: Entry): AccountId { e.data.accountId }
  function TypeOf(e: Entry): TxType { e.data.txType }
  function CurrencyOf(e: Entry): Currency { e.data.currency }

  /** Every entry has the same `key` as the first. */
  predicate Uniform<K(==)>(sel: seq<Entry>, key: Entry -> K)
    requires sel != []
  {
    forall i | 0 <= i < |sel| :: key(sel[i]) == key(sel[0])
  }

  /** The set of keys has more than one element exactly when some entry's key differs from the first's. */
  lemma {:induction false} DistinctSize<K>(sel: seq<Entry>, key: Entry -> K)
    requires sel != []
    ensures |Distinct(sel, key)| > 1 <==> !Uniform(sel, key)
  {
    var d := Distinct(sel, key);
    var k0 := key(sel[0]);
    assert k0 in d;
    if Uniform(sel, key) {
      assert d == {k0} by {
        forall x | x in d ensures x == k0 {
          var e :| e in sel && key(e) == x;
          var i :| 0 <= i < |sel| && sel[i] == e;
        }
      }
    } else {
      var i :| 0 <= i < |sel| && key(sel[i]) != k0;
      var k1 := key(sel[i]);
      assert k1 in d;
      assert {k0, k1} <= d;
      assert |{k0, k1}| == 2;
      SubsetSize({k0, k1}, d);
    }
  }

  lemma SubsetSize<K>(a: set<K>, b: set<K>)
    requires a <= b
    ensures |a| <= |b|
  {
    assert b == a + (b - a);
  }

  /** `handleMergeAttempt`'s checks, in the source's order; the first failing check gives the toast. */
  function MergeCheck(sel: seq<Entry>): MergeVerdict {
    if |sel| < 2 then Refuse(TooFew)
    else if |Distinct(sel, DateOf)| > 1 then Refuse(DateMismatch)
    else if |Distinct(sel, CategoryKey)| > 1 then Refuse(CategoryMismatch)
    else if |Distinct(sel, AccountOf)| > 1 then Refuse(AccountMismatch)
    else if |Distinct(sel, TypeOf)| > 1 then Refuse(TypeMismatch)
    else Open
  }

  /**
   * The checks read entry by entry: fewer than two selected is refused first; then the first of
   * date, category (no category being a value of its own), account and type on which some entry
   * differs from the first gives the toast; when none differs the dialog opens.
   */
  lemma MergeCheckMeaning(sel: seq<Entry>)
    ensures MergeCheck(sel) ==
      if |sel| < 2 then Refuse(TooFew)
      else if !Uniform(sel, DateOf) then Refuse(DateMismatch)
      else if !Uniform(sel, CategoryKey) then Refuse(CategoryMismatch)
      else if !Uniform(sel, AccountOf) then Refuse(AccountMismatch)
      else if !Uniform(sel, TypeOf) then Refuse(TypeMismatch)
      else Open
  {
    if |sel| >= 2 {
      DistinctSize(sel, DateOf);
      DistinctSize(sel, CategoryKey);
      DistinctSize(sel, AccountOf);
      DistinctSize(sel, TypeOf);
    }
  }

  /** The entry with its currency replaced. */
  function WithCurrency(e: Entry, c: Currency): Entry {
    e.(data := e.data.(currency := c))
  }

  /** The checks never look at currencies: recoloring the entries' currencies changes no verdict. */
  lemma MergeCheckIgnoresCurrency(sel: seq<Entry>, cs: seq<Currency>)
    requires |cs| == |sel|
    ensures MergeCheck(seq(|sel|, i requires 0 <= i < |sel| => WithCurrency(sel[i], cs[i]))) == MergeCheck(sel)
  {
    var sel' := seq(|sel|, i requires 0 <= i < |sel| => WithCurrency(sel[i], cs[i]));
    SameKeys(sel, sel', DateOf);
    SameKeys(sel, sel', CategoryKey);
    SameKeys(sel, sel', AccountOf);
    SameKeys(sel, sel', TypeOf);
  }

  lemma SameKeys<K>(sel: seq<Entry>, sel': seq<Entry>, key: Entry -> K)
    requires |sel'| == |sel|
    requires forall i | 0 <= i < |sel| :: key(sel'[i]) == key(sel[i])
    ensures Distinct(sel', key) == Distinct(sel, key)
  {
    forall x | x in Distinct(sel', key) ensures x in Distinct(sel, key) {
      var e :| e in sel' && key(e) == x;
      var i :| 0 <= i < |sel'| && sel'[i] == e;
      assert sel[i] in sel;
    }
    forall x | x in Distinct(sel, key) ensures x in Distinct(sel', key) {
      var e :| e in sel && key(e) == x;
      var i :| 0 <= i < |sel| && sel[i] == e;
      assert sel'[i] in sel';
    }
  }

  /** The checks with the currency compared as well, after the type. */
  function MergeCheckStrict(sel: seq<Entry>): (v: MergeVerdict)
    ensures MergeCheck(sel).Refuse? ==> v == MergeCheck(sel)
  {
    var v := MergeCheck(sel);
    if v.Refuse? then v
    else if |Distinct(sel, CurrencyOf)| > 1 then Refuse(CurrencyMismatch)
    else Open
  }

  /** The strict checks open the dialog exactly for two or more entries that agree on date, category, account, type and currency. */
  lemma MergeCheckStrictMeaning(sel: seq<Entry>)
    ensures MergeCheckStrict(sel) == Open <==>
      |sel| >= 2 && Uniform(sel, DateOf) && Uniform(sel, CategoryKey) && Uniform(sel, AccountOf)
      && Uniform(sel, TypeOf) && Uniform(sel, CurrencyOf)
  {
    MergeCheckMeaning(sel);
    if |sel| >= 2 {
      DistinctSize(sel, CurrencyOf);
    }
  }

  // ---------------------------------------------------------------------
  // The screen's state

  /** The selection state of the screen and the error toasts it has shown, oldest first. */
  class Screen {
    var selectionMode: bool
    var selectedIds: set<EntryId>
    var mergeDialogOpen: bool
    var toasts: seq<string>

    constructor ()
      ensures !selectionMode && selectedIds == {} && !mergeDialogOpen && toasts == []
    {
      selectionMode := false;
      selectedIds := {};
      mergeDialogOpen := false;
      toasts := [];
    }

    /** `toggleSelect`: copy the set, flip `id`, store the copy. */
    method ToggleSelect(id: EntryId)
      modifies this`selectedIds
      ensures selectedIds == Toggled(old(selectedIds), id)
    {
      var next := selectedIds;
      if id in next {
        next := next - {id};
      } else {
        next := next + {id};
      }
      selectedIds := next;
    }

    /** `exitSelectionMode`. */
    method ExitSelectionMode()
      modifies this`selectionMode, this`selectedIds
      ensures !selectionMode && selectedIds == {}
    {
      selectionMode := false;
      selectedIds := {};
    }

    /** The outcome of the checks on screen: the dialog opens, or the refusal's toast is appended. */
    method ShowVerdict(v: MergeVerdict)
      modifies this`mergeDialogOpen, this`toasts
      ensures v == Open ==> mergeDialogOpen && toasts == old(toasts)
      ensures v.Refuse? ==> mergeDialogOpen == old(mergeDialogOpen) && toasts == old(toasts) + [v.message]
    {
      if v.Refuse? {
        toasts := toasts + [v.message];
        return;
      }
      mergeDialogOpen := true;
    }

    /**
     * `handleMergeAttempt` over the shown entries, as written: the dialog opens when the checks
     * pass, and otherwise the first failing check's toast is shown. Currencies are not compared.
     */
    method HandleMergeAttempt(filtered: seq<Entry>)
      modifies this`mergeDialogOpen, this`toasts
      ensures var v := MergeCheck(SelectedTransactions(filtered, selectedIds));
        && (v == Open ==> mergeDialogOpen && toasts == old(toasts))
        && (v.Refuse? ==> mergeDialogOpen == old(mergeDialogOpen) && toasts == old(toasts) + [v.message])
    {
      var selected := SelectedTransactions(filtered, selectedIds);
      ShowVerdict(MergeCheck(selected));
    }

    /** The corrected `handleMergeAttempt`: the same, with the currency compared after the type. */
    method HandleMergeAttemptStrict(filtered: seq<Entry>)
      modifies this`mergeDialogOpen, this`toasts
      ensures var v := MergeCheckStrict(SelectedTransactions(filtered, selectedIds));
        && (v == Open ==> mergeDialogOpen && toasts == old(toasts))
        && (v.Refuse? ==> mergeDialogOpen == old(mergeDialogOpen) && toasts == old(toasts) + [v.message])
    {
      var selected := SelectedTransactions(filtered, selectedIds);
      ShowVerdict(MergeCheckStrict(selected));
    }
  }
}
