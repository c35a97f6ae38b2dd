/**
 * The import dialog's own logic: editing the column mapping by hand, the gate on
 * required fields, resolving the category names the categories do not know, and the
 * final import that joins validation with the sequential commit.
 */
module ImportDialog {
  import opened Wrappers
  import opened Text
  import opened Domain
  import opened CsvImport
  import Transactions

  // ---------------------------------------------------------------------
  // Editing the mapping

  /** The keys of a `ColumnMapping` in the order `Object.keys` lists them. */
  const FieldOrder: seq<Field> :=
    [DateCol, DescriptionCol, TypeCol, AmountCol, CurrencyCol, CategoryCol, AccountCol, MerchantCol, NotesCol]

  lemma EveryField(g: Field)
    ensures g in FieldOrder
  {
    match g
    case DateCol =>
    case DescriptionCol =>
    case TypeCol =>
    case AmountCol =>
    case CurrencyCol =>
    case CategoryCol =>
    case AccountCol =>
    case MerchantCol =>
    case NotesCol =>
  }

  /** No two fields share a column. */
  predicate Injective(m: ColumnMapping) {
    forall f, g | f in m && g in m && f != g :: m[f] != m[g]
  }

  /** The mapping with every field that holds column `col` unmapped. */
  function Released(m: ColumnMapping, col: nat): ColumnMapping {
    map g | g in m && m[g] != col :: m[g]
  }

  /** The mapping after `field` is given column `col` (or unmapped, for `None`). */
  function Reassigned(m: ColumnMapping, field: Field, col: Option<nat>): ColumnMapping {
    match col
    case None => m - {field}
    case Some(c) => Released(m, c)[field := c]
  }

  /**
   * `updateMapping`: every other field that holds `col` is unmapped, one key at a time
   * in key order, and then `field` takes `col`.
   */
  method UpdateMapping(prev: ColumnMapping, field: Field, col: Option<nat>) returns (next: ColumnMapping)
    ensures next == Reassigned(prev, field, col)
  {
    next := prev;
    for i := 0 to |FieldOrder|
      invariant forall g :: g in next <==> g in prev && !(g in FieldOrder[..i] && g != field && Some(prev[g]) == col)
      invariant forall g | g in next :: next[g] == prev[g]
    {
      var key := FieldOrder[i];
      assert FieldOrder[..i + 1] == FieldOrder[..i] + [key];
      if key in next && Some(next[key]) == col && key != field {
        next := next - {key};
      }
    }
    ReleasedAll(prev, next, field, col);
    match col {
      case None =>
        next := next - {field};
      case Some(c) =>
        next := next[field := c];
    }
  }

  /** After the scan of every key, only `field` may still hold `col` among the changed keys. */
  lemma ReleasedAll(prev: ColumnMapping, next: ColumnMapping, field: Field, col: Option<nat>)
    requires forall g :: g in next <==> g in prev && !(g in FieldOrder[..|FieldOrder|] && g != field && Some(prev[g]) == col)
    requires forall g | g in next :: next[g] == prev[g]
    ensures match col
      case None => next - {field} == Reassigned(prev, field, col)
      case Some(c) => next[field := c] == Reassigned(prev, field, col)
  {
    forall g ensures g in FieldOrder {
      EveryField(g);
    }
    assert FieldOrder[..|FieldOrder|] == FieldOrder;
  }

  /** The `_skip` choice for column `col`: every field that holds it is unmapped, in key order. */
  method SkipColumn(prev: ColumnMapping, col: nat) returns (next: ColumnMapping)
    ensures next == Released(prev, col)
  {
    next := prev;
    for i := 0 to |FieldOrder|
      invariant forall g :: g in next <==> g in prev && !(g in FieldOrder[..i] && prev[g] == col)
      invariant forall g | g in next :: next[g] == prev[g]
    {
      var key := FieldOrder[i];
      assert FieldOrder[..i + 1] == FieldOrder[..i] + [key];
      if key in next && next[key] == col {
        next := next - {key};
      }
    }
    forall g ensures g in FieldOrder {
      EveryField(g);
    }
    assert FieldOrder[..|FieldOrder|] == FieldOrder;
  }

  /** The first of `fields` that `m` maps to column `col`. */
  function FirstOwner(m: ColumnMapping, col: nat, fields: seq<Field>): (r: Option<Field>)
    ensures r.None? <==> forall f | f in fields :: f !in m || m[f] != col
    ensures r.Some? ==> r.value in fields && r.value in m && m[r.value] == col
  {
    if fields == [] then None
    else if fields[0] in m && m[fields[0]] == col then Some(fields[0])
    else
      var r := FirstOwner(m, col, fields[1..]);
      assert forall f | f in fields :: f == fields[0] || f in fields[1..];
      r
  }

  /** The field shown for a column: the first key holding it, `None` standing for `_skip`. */
  function Owner(m: ColumnMapping, col: nat): (r: Option<Field>)
    ensures r.None? <==> forall f | f in m :: m[f] != col
    ensures r.Some? ==> r.value in m && m[r.value] == col
  {
    assert forall f :: f in FieldOrder by {
      forall f ensures f in FieldOrder {
        EveryField(f);
      }
    }
    FirstOwner(m, col, FieldOrder)
  }

  /** `getMappingForColumn`: a scan of the keys in order for one holding `col`. */
  method MappingForColumn(m: ColumnMapping, col: nat) returns (owner: Option<Field>)
    ensures owner == Owner(m, col)
  {
    owner := None;
    var i := 0;
    while i < |FieldOrder|
      invariant 0 <= i <= |FieldOrder|
      invariant FirstOwner(m, col, FieldOrder[i..]) == FirstOwner(m, col, FieldOrder)
    {
      var key := FieldOrder[i];
      if key in m && m[key] == col {
        return Some(key);
      }
      assert FieldOrder[i..][1..] == FieldOrder[i + 1..];
      i := i + 1;
    }
  }

  /** Two mappings that agree on which fields hold `col` show the same field for it. */
  lemma {:induction false} FirstOwnerAgrees(m1: ColumnMapping, m2: ColumnMapping, col: nat, fields: seq<Field>)
    requires forall f :: (f in m1 && m1[f] == col) <==> (f in m2 && m2[f] == col)
    ensures FirstOwner(m1, col, fields) == FirstOwner(m2, col, fields)
  {
    if fields != [] {
      FirstOwnerAgrees(m1, m2, col, fields[1..]);
    }
  }

  /** In a mapping without shared columns, the field shown for a column is the one holding it. */
  lemma OwnerOfInjective(m: ColumnMapping, f: Field)
    requires Injective(m) && f in m
    ensures Owner(m, m[f]) == Some(f)
  {
  }

  /**
   * Skipping a column: it shows `_skip` afterwards, every other column shows what it
   * showed before, and no two fields come to share a column.
   */
  lemma SkipColumnEffect(m: ColumnMapping, col: nat)
    ensures Owner(Released(m, col), col).None?
    ensures forall c | c != col :: Owner(Released(m, col), c) == Owner(m, c)
    ensures Injective(m) ==> Injective(Released(m, col))
  {
    forall c | c != col ensures Owner(Released(m, col), c) == Owner(m, c) {
      FirstOwnerAgrees(Released(m, col), m, c, FieldOrder);
    }
  }

  /**
   * Choosing column `col` for `field`: the column shows `field`, the column `field` held
   * before shows `_skip`, every other column is unchanged, and no two fields share a column.
   */
  lemma ReassignEffect(m: ColumnMapping, field: Field, col: nat)
    requires Injective(m)
    ensures Injective(Reassigned(m, field, Some(col)))
    ensures Owner(Reassigned(m, field, Some(col)), col) == Some(field)
    ensures field in m && m[field] != col ==> Owner(Reassigned(m, field, Some(col)), m[field]).None?
    ensures forall c | c != col && (field !in m || m[field] != c) ::
      Owner(Reassigned(m, field, Some(col)), c) == Owner(m, c)
  {
    ReassignInjective(m, field, col);
    OwnerOfInjective(Reassigned(m, field, Some(col)), field);
    ReassignFreesOld(m, field, col);
    ReassignKeepsOthers(m, field, col);
  }

  lemma ReassignInjective(m: ColumnMapping, field: Field, col: nat)
    requires Injective(m)
    ensures Injective(Reassigned(m, field, Some(col))) && field in Reassigned(m, field, Some(col))
  {
    var n := Reassigned(m, field, Some(col));
    forall f, g | f in n && g in n && f != g ensures n[f] != n[g] {
      if f != field && g != field {
        assert n[f] == m[f] && n[g] == m[g];
      }
    }
  }

  lemma ReassignFreesOld(m: ColumnMapping, field: Field, col: nat)
    requires Injective(m)
    ensures field in m && m[field] != col ==> Owner(Reassigned(m, field, Some(col)), m[field]).None?
  {
    if field in m && m[field] != col {
      var n := Reassigned(m, field, Some(col));
      forall f | f in n ensures n[f] != m[field] {
        if f != field {
          assert n[f] == m[f];
        }
      }
    }
  }

  lemma ReassignKeepsOthers(m: ColumnMapping, field: Field, col: nat)
    ensures forall c | c != col && (field !in m || m[field] != c) ::
      Owner(Reassigned(m, field, Some(col)), c) == Owner(m, c)
  {
    var n := Reassigned(m, field, Some(col));
    forall c | c != col && (field !in m || m[field] != c) ensures Owner(n, c) == Owner(m, c) {
      FirstOwnerAgrees(n, m, c, FieldOrder);
    }
  }

  /** Unmapping `field` by hand: its column shows `_skip`, the others are unchanged. */
  lemma UnmapEffect(m: ColumnMapping, field: Field)
    requires Injective(m)
    ensures Injective(Reassigned(m, field, None))
    ensures field !in Reassigned(m, field, None)
    ensures field in m ==> Owner(Reassigned(m, field, None), m[field]).None?
    ensures forall c | field !in m || m[field] != c :: Owner(Reassigned(m, field, None), c) == Owner(m, c)
  {
    var n := Reassigned(m, field, None);
    forall c | field !in m || m[field] != c ensures Owner(n, c) == Owner(m, c) {
      FirstOwnerAgrees(n, m, c, FieldOrder);
    }
  }

  // ---------------------------------------------------------------------
  // The gate on required fields

  /** The fields the import cannot do without. */
  const RequiredFields: seq<Field> := [DateCol, DescriptionCol, TypeCol, AmountCol, CurrencyCol, AccountCol]

  /** A field that is unmapped and has no default to fall back on. */
  predicate Unsatisfied(m: ColumnMapping, d: Defaults, f: Field) {
    && f !in m
    && !(f == TypeCol && d.txType.Some?)
    && !(f == CurrencyCol && d.currency.Some?)
    && !(f == AccountCol && d.accountId != "")
  }

  /** The unsatisfied fields among `fields`, in their order. */
  function UnsatisfiedAmong(fields: seq<Field>, m: ColumnMapping, d: Defaults): (r: seq<Field>)
    ensures forall f :: f in r <==> f in fields && Unsatisfied(m, d, f)
    ensures |r| <= |fields|
  {
    if fields == [] then []
    else (if Unsatisfied(m, d, fields[0]) then [fields[0]] else []) + UnsatisfiedAmong(fields[1..], m, d)
  }

  /** `missingRequired`: a non-empty list disables the button that goes on with the import. */
  function MissingRequired(m: ColumnMapping, d: Defaults): seq<Field> {
    UnsatisfiedAmong(RequiredFields, m, d)
  }

  /** An unmapped cell reads as the empty text, which is not a date. */
  lemma EmptyCellNoDate(e: string)
    requires e == GetField([], None)
    ensures ParseDate(e).None?
  {
    assert e == [];
    assert Trim(e) == [];
    assert !IsoShape([]) && !SlashShape([]);
  }

  /** The empty text is not an amount. */
  lemma EmptyCellNoAmount(e: string)
    requires e == GetField([], None)
    ensures ParseAmount(e).None?
  {
    assert e == [];
    EmptyCleaned();
  }

  lemma EmptyCleaned()
    ensures CleanAmount([]) == []
  {
    assert Trim([]) == [] && RemoveSymbols([]) == [];
  }

  /** An unmapped date column: no row has a date. */
  lemma UnmappedDateFails(row: Row, s: ImportSetup)
    requires DateCol !in s.mapping
    ensures !Passes(row, s, DateCheck)
  {
    ReadUnmappedDate(row, s);
    NoDate(Read(row, s));
  }

  lemma ReadUnmappedDate(row: Row, s: ImportSetup)
    requires DateCol !in s.mapping
    ensures Read(row, s).date == ParseDate(GetField([], None))
  {
    assert Column(s.mapping, DateCol) == None;
  }

  lemma NoDate(r: Reading)
    requires r.date == ParseDate(GetField([], None))
    ensures !Holds(r, DateCheck)
  {
    EmptyCellNoDate(GetField([], None));
  }

  /** An unmapped description column: every description is empty. */
  lemma UnmappedDescriptionFails(row: Row, s: ImportSetup)
    requires DescriptionCol !in s.mapping
    ensures !Passes(row, s, DescriptionCheck)
  {
    ReadUnmappedDescription(row, s);
    NoDescription(Read(row, s));
  }

  lemma ReadUnmappedDescription(row: Row, s: ImportSetup)
    requires DescriptionCol !in s.mapping
    ensures Read(row, s).description == GetField([], None)
  {
    assert Column(s.mapping, DescriptionCol) == None;
  }

  lemma NoDescription(r: Reading)
    requires r.description == GetField([], None)
    ensures !Holds(r, DescriptionCheck)
  {
  }

  /** An unmapped amount column: no row has an amount. */
  lemma UnmappedAmountFails(row: Row, s: ImportSetup)
    requires AmountCol !in s.mapping
    ensures !Passes(row, s, AmountCheck)
  {
    ReadUnmappedAmount(row, s);
    NoAmount(Read(row, s));
  }

  lemma ReadUnmappedAmount(row: Row, s: ImportSetup)
    requires AmountCol !in s.mapping
    ensures Read(row, s).amount == ParseAmount(GetField([], None))
  {
    assert Column(s.mapping, AmountCol) == None;
  }

  lemma NoAmount(r: Reading)
    requires r.amount == ParseAmount(GetField([], None))
    ensures !Holds(r, AmountCheck)
  {
    EmptyCellNoAmount(GetField([], None));
  }

  /** An unmapped type column with no default type: no row has a type. */
  lemma UnmappedTypeFails(row: Row, s: ImportSetup)
    requires TypeCol !in s.mapping && s.defaults.txType.None?
    ensures !Passes(row, s, TypeCheck)
  {
    ReadUnmappedDefaults(row, s);
    NoneFails(Read(row, s));
  }

  /** An unmapped currency column with no default currency: no row has a currency. */
  lemma UnmappedCurrencyFails(row: Row, s: ImportSetup)
    requires CurrencyCol !in s.mapping && s.defaults.currency.None?
    ensures !Passes(row, s, CurrencyCheck)
  {
    ReadUnmappedDefaults(row, s);
    NoneFails(Read(row, s));
  }

  /** An unmapped account column with no default account: no row has an account. */
  lemma UnmappedAccountFails(row: Row, s: ImportSetup)
    requires AccountCol !in s.mapping && s.defaults.accountId == ""
    ensures !Passes(row, s, AccountCheck)
  {
    ReadUnmappedDefaults(row, s);
    NoneFails(Read(row, s));
  }

  /** What the reading of a row takes from an unmapped column that has a default. */
  lemma ReadUnmappedDefaults(row: Row, s: ImportSetup)
    ensures TypeCol !in s.mapping ==> Read(row, s).txType == s.defaults.txType
    ensures CurrencyCol !in s.mapping ==> Read(row, s).currency == s.defaults.currency
    ensures AccountCol !in s.mapping && s.defaults.accountId == "" ==> Read(row, s).account.None?
  {
  }

  lemma NoneFails(r: Reading)
    ensures r.txType.None? ==> !Holds(r, TypeCheck)
    ensures r.currency.None? ==> !Holds(r, CurrencyCheck)
    ensures r.account.None? ==> !Holds(r, AccountCheck)
  {
  }

  /** A row that fails any check is rejected. */
  lemma FailingRowRejected(row: Row, s: ImportSetup, c: Check)
    requires !Passes(row, s, c)
    ensures CheckRow(row, s).Rejected?
  {
    CheckRowFirstFailure(row, s);
  }

  /**
   * Why the gate is there: with a required field missing, every row of the file would be
   * rejected, whatever its cells say.
   */
  lemma MissingRejectsEveryRow(row: Row, s: ImportSetup, f: Field)
    requires f in MissingRequired(s.mapping, s.defaults)
    ensures CheckRow(row, s).Rejected?
  {
    assert f in RequiredFields && Unsatisfied(s.mapping, s.defaults, f);
    match f {
      case DateCol =>
        UnmappedDateFails(row, s);
        FailingRowRejected(row, s, DateCheck);
      case DescriptionCol =>
        UnmappedDescriptionFails(row, s);
        FailingRowRejected(row, s, DescriptionCheck);
      case AmountCol =>
        UnmappedAmountFails(row, s);
        FailingRowRejected(row, s, AmountCheck);
      case TypeCol =>
        UnmappedTypeFails(row, s);
        FailingRowRejected(row, s, TypeCheck);
      case CurrencyCol =>
        UnmappedCurrencyFails(row, s);
        FailingRowRejected(row, s, CurrencyCheck);
      case AccountCol =>
        UnmappedAccountFails(row, s);
        FailingRowRejected(row, s, AccountCheck);
    }
  }

  /** A mapping that passes the gate has a column or a default behind every required field. */
  lemma GatePassed(m: ColumnMapping, d: Defaults)
    requires MissingRequired(m, d) == []
    ensures DateCol in m && DescriptionCol in m && AmountCol in m
    ensures TypeCol in m || d.txType.Some?
    ensures CurrencyCol in m || d.currency.Some?
    ensures AccountCol in m || d.accountId != ""
  {
    forall f | f in RequiredFields ensures !Unsatisfied(m, d, f) {
      assert f !in UnsatisfiedAmong(RequiredFields, m, d);
    }
    assert DateCol in RequiredFields && DescriptionCol in RequiredFields && TypeCol in RequiredFields;
    assert AmountCol in RequiredFields && CurrencyCol in RequiredFields && AccountCol in RequiredFields;
  }

  // ---------------------------------------------------------------------
  // Resolving unknown categories

  datatype Action = UseExisting | CreateNew | SkipCategory

  /** The type a new category is created with. */
  datatype Kind = IncomeKind | ExpenseKind

  /** A `CategoryResolution`; an absent optional field is `None`. */
  datatype Resolution = Resolution(action: Action, categoryId: Option<string>, newName: Option<string>, newType: Option<Kind>)

  /** `!!s`: present and non-empty. */
  predicate Truthy(s: Option<string>) {
    s.Some? && s.value != ""
  }

  /** Whether a resolution is complete enough to import with. */
  predicate Settled(r: Resolution) {
    match r.action
    case UseExisting => Truthy(r.categoryId)
    case CreateNew => r.newName.Some? && Trim(r.newName.value) != ""
    case SkipCategory => true
  }

  /** `allResolved`: every unknown name has a settled resolution. */
  predicate AllResolved(unknown: seq<string>, res: map<string, Resolution>) {
    forall i | 0 <= i < |unknown| :: unknown[i] in res && Settled(res[unknown[i]])
  }

  /** The resolutions the resolve step starts from: create each name as it is, as an expense category. */
  function InitialResolutions(unknown: seq<string>): map<string, Resolution> {
    map name | name in unknown :: Resolution(CreateNew, None, Some(name), Some(ExpenseKind))
  }

  /** Where `handleProceed` goes: the resolve step with the initial resolutions, or straight to the import. */
  datatype Proceeding = Resolve(unknown: seq<string>, resolutions: map<string, Resolution>) | ImportNow

  function Proceed(unknown: seq<string>): Proceeding {
    if |unknown| > 0 then Resolve(unknown, InitialResolutions(unknown)) else ImportNow
  }

  /**
   * The names `findUnknownCategories` reports are trimmed and non-empty, so the initial
   * resolutions already let the import go on.
   */
  lemma ProceedResolved(rows: seq<Row>, col: nat, categories: seq<Named>, unknown: seq<string>)
    requires forall x :: x in unknown <==> x in Cells(rows, col) && IsUnknownName(x, KnownNames(categories))
    ensures Proceed(unknown).ImportNow? <==> unknown == []
    ensures Proceed(unknown).Resolve? ==>
      Proceed(unknown).unknown == unknown && AllResolved(unknown, Proceed(unknown).resolutions)
  {
    forall i | 0 <= i < |unknown| ensures Trim(unknown[i]) != "" {
      CellTrimmed(rows, col, unknown[i]);
    }
  }

  /** A non-empty cell is trimmed text, so it is not blank. */
  lemma CellTrimmed(rows: seq<Row>, col: nat, x: string)
    requires x in Cells(rows, col) && x != ""
    ensures Trim(x) != ""
  {
    var cells := Cells(rows, col);
    var k :| 0 <= k < |cells| && cells[k] == x;
    assert x == Trim(rows[k][col]);
    assert !IsSpace(x[0]);
  }

  /** What one name contributes to the overrides. */
  datatype Outcome = Abort | Record(id: string) | NoOverride

  function KindOr(k: Option<Kind>): Kind {
    if k.Some? then k.value else ExpenseKind
  }

  /**
   * One turn of the override loop. A missing resolution throws, and so does a failed
   * `createCategory` (`create` stands for it: the trimmed name and type in, the new id out).
   */
  function NameOutcome(name: string, res: map<string, Resolution>, create: (string, Kind) -> Result<string>): Outcome {
    if name !in res then Abort
    else
      var r := res[name];
      if r.action == UseExisting && Truthy(r.categoryId) then Record(r.categoryId.value)
      else if r.action == CreateNew && r.newName.Some? && Trim(r.newName.value) != "" then
        match create(Trim(r.newName.value), KindOr(r.newType))
        case Failure(_) => Abort
        case Success(id) => Record(id)
      else NoOverride
  }

  /** The category creations one name asks for. */
  function Creation(name: string, res: map<string, Resolution>): seq<(string, Kind)> {
    if name in res && res[name].action == CreateNew && res[name].newName.Some? && Trim(res[name].newName.value) != ""
    then [(Trim(res[name].newName.value), KindOr(res[name].newType))]
    else []
  }

  /** The overrides the loop builds, keyed by lower-cased name; `None` when it throws. */
  function Overrides(names: seq<string>, res: map<string, Resolution>, create: (string, Kind) -> Result<string>): Option<map<string, string>> {
    if names == [] then Some(map[])
    else
      var name := names[|names| - 1];
      match Overrides(names[..|names| - 1], res, create)
      case None => None
      case Some(m) =>
        match NameOutcome(name, res, create)
        case Abort => None
        case Record(id) => Some(m[ToLower(name) := id])
        case NoOverride => Some(m)
  }

  /** The creations requested before the loop stops, in order (those made before a throw stay made). */
  function Creations(names: seq<string>, res: map<string, Resolution>, create: (string, Kind) -> Result<string>): seq<(string, Kind)> {
    if names == [] then []
    else
      var prefix := names[..|names| - 1];
      if Overrides(prefix, res, create).None? then Creations(prefix, res, create)
      else Creations(prefix, res, create) + Creation(names[|names| - 1], res)
  }

  /** Whether name `i` is the last of the names sharing its lower-cased form to record an id. */
  predicate LastRecord(names: seq<string>, res: map<string, Resolution>, create: (string, Kind) -> Result<string>, i: nat)
    requires i < |names|
  {
    && NameOutcome(names[i], res, create).Record?
    && forall j | i < j < |names| :: ToLower(names[j]) == ToLower(names[i]) ==> !NameOutcome(names[j], res, create).Record?
  }

  /** The loop throws exactly when some name aborts it. */
  lemma {:induction false} OverridesAbort(names: seq<string>, res: map<string, Resolution>, create: (string, Kind) -> Result<string>)
    ensures Overrides(names, res, create).Some? <==> forall i | 0 <= i < |names| :: !NameOutcome(names[i], res, create).Abort?
  {
    if names != [] {
      var prefix := names[..|names| - 1];
      OverridesAbort(prefix, res, create);
      assert forall i | 0 <= i < |prefix| :: prefix[i] == names[i];
    }
  }

  /**
   * The overrides hold exactly the lower-cased names that recorded an id, and each holds
   * the id of the last name with that lower-cased form; a skipped or incomplete resolution
   * adds nothing.
   */
  lemma OverridesEntries(names: seq<string>, res: map<string, Resolution>, create: (string, Kind) -> Result<string>)
    requires Overrides(names, res, create).Some?
    ensures forall k | k in Overrides(names, res, create).value ::
      exists i | 0 <= i < |names| :: ToLower(names[i]) == k && NameOutcome(names[i], res, create).Record?
    ensures forall i | 0 <= i < |names| && LastRecord(names, res, create, i) ::
      && ToLower(names[i]) in Overrides(names, res, create).value
      && Overrides(names, res, create).value[ToLower(names[i])] == NameOutcome(names[i], res, create).id
  {
    OverridesFrom(names, res, create);
    OverridesLast(names, res, create);
  }

  lemma {:induction false} OverridesFrom(names: seq<string>, res: map<string, Resolution>, create: (string, Kind) -> Result<string>)
    requires Overrides(names, res, create).Some?
    ensures forall k | k in Overrides(names, res, create).value ::
      exists i | 0 <= i < |names| :: ToLower(names[i]) == k && NameOutcome(names[i], res, create).Record?
  {
    if names != [] {
      var n := |names| - 1;
      var prefix := names[..n];
      var m := Overrides(names, res, create).value;
      assert Overrides(prefix, res, create).Some?;
      var pm := Overrides(prefix, res, create).value;
      OverridesFrom(prefix, res, create);
      forall k | k in m ensures exists i | 0 <= i < |names| :: ToLower(names[i]) == k && NameOutcome(names[i], res, create).Record? {
        if k !in pm {
          assert ToLower(names[n]) == k && NameOutcome(names[n], res, create).Record?;
        } else if NameOutcome(names[n], res, create).Record? && ToLower(names[n]) == k {
        } else {
          var i :| 0 <= i < n && ToLower(prefix[i]) == k && NameOutcome(prefix[i], res, create).Record?;
          assert prefix[i] == names[i];
        }
      }
    }
  }

  lemma {:induction false} OverridesLast(names: seq<string>, res: map<string, Resolution>, create: (string, Kind) -> Result<string>)
    requires Overrides(names, res, create).Some?
    ensures forall i | 0 <= i < |names| && LastRecord(names, res, create, i) ::
      && ToLower(names[i]) in Overrides(names, res, create).value
      && Overrides(names, res, create).value[ToLower(names[i])] == NameOutcome(names[i], res, create).id
  {
    if names != [] {
      var n := |names| - 1;
      var prefix := names[..n];
      var m := Overrides(names, res, create).value;
      assert Overrides(prefix, res, create).Some?;
      OverridesLast(prefix, res, create);
      forall i | 0 <= i < |names| && LastRecord(names, res, create, i)
        ensures ToLower(names[i]) in m && m[ToLower(names[i])] == NameOutcome(names[i], res, create).id
      {
        if i < n {
          assert prefix[i] == names[i];
          assert LastRecord(prefix, res, create, i);
          assert !(NameOutcome(names[n], res, create).Record? && ToLower(names[n]) == ToLower(names[i]));
        }
      }
    }
  }

  /** One more name: the overrides and the requests grow by what that name gives. */
  lemma OverridesStep(names: seq<string>, res: map<string, Resolution>, create: (string, Kind) -> Result<string>, m: map<string, string>)
    requires names != [] && Overrides(names[..|names| - 1], res, create) == Some(m)
    ensures var name := names[|names| - 1];
      && Overrides(names, res, create) == (match NameOutcome(name, res, create)
         case Abort => None
         case Record(id) => Some(m[ToLower(name) := id])
         case NoOverride => Some(m))
      && Creations(names, res, create) == Creations(names[..|names| - 1], res, create) + Creation(name, res)
  {
  }

  /** Once the loop has thrown, later names request nothing more. */
  lemma {:induction false} CreationsAfterAbort(names: seq<string>, k: nat, res: map<string, Resolution>, create: (string, Kind) -> Result<string>)
    requires k <= |names| && Overrides(names[..k], res, create).None?
    ensures Overrides(names, res, create).None?
    ensures Creations(names, res, create) == Creations(names[..k], res, create)
    decreases |names|
  {
    if k < |names| {
      var prefix := names[..|names| - 1];
      assert prefix[..k] == names[..k];
      CreationsAfterAbort(prefix, k, res, create);
    } else {
      assert names[..k] == names;
    }
  }

  /**
   * `handleResolveAndImport`'s loop: for each unknown name in order, an existing category's
   * id or a newly created one is recorded under the lower-cased name; a name with no
   * resolution or a failed creation throws, and the import does not start. `requested` are
   * the `createCategory` calls made, in order.
   */
  method BuildOverrides(names: seq<string>, res: map<string, Resolution>, create: (string, Kind) -> Result<string>)
    returns (overrides: Option<map<string, string>>, requested: seq<(string, Kind)>)
    ensures overrides == Overrides(names, res, create)
    ensures requested == Creations(names, res, create)
  {
    var m: map<string, string> := map[];
    requested := [];
    for i := 0 to |names|
      invariant Overrides(names[..i], res, create) == Some(m)
      invariant requested == Creations(names[..i], res, create)
    {
      var name := names[i];
      assert names[..i + 1][..i] == names[..i];
      OverridesStep(names[..i + 1], res, create, m);
      if name !in res {
        CreationsAfterAbort(names, i + 1, res, create);
        return None, requested;
      }
      var r := res[name];
      if r.action == UseExisting && r.categoryId.Some? && r.categoryId.value != "" {
        m := m[ToLower(name) := r.categoryId.value];
      } else if r.action == CreateNew && r.newName.Some? && Trim(r.newName.value) != "" {
        var kind := if r.newType.Some? then r.newType.value else ExpenseKind;
        requested := requested + [(Trim(r.newName.value), kind)];
        var created := create(Trim(r.newName.value), kind);
        if created.Failure? {
          CreationsAfterAbort(names, i + 1, res, create);
          return None, requested;
        }
        m := m[ToLower(name) := created.value];
      }
    }
    assert names[..|names|] == names;
    overrides := Some(m);
  }

  /**
   * What the overrides are for: a name that recorded an id last among its lower-cased
   * spellings, and that no category is called, resolves to that id in the import.
   */
  lemma OverrideResolves(names: seq<string>, res: map<string, Resolution>, create: (string, Kind) -> Result<string>,
                         i: nat, s: ImportSetup)
    requires i < |names| && Overrides(names, res, create).Some? && LastRecord(names, res, create, i)
    requires s.overrides == Overrides(names, res, create).value
    requires IsUnknownName(names[i], KnownNames(s.categories))
    requires NameOutcome(names[i], res, create).id != ""
    ensures ResolvedCategory(names[i], s) == Some(NameOutcome(names[i], res, create).id)
  {
    OverridesEntries(names, res, create);
    var lower := ToLower(names[i]);
    forall k | 0 <= k < |s.categories| ensures ToLower(s.categories[k].name) != lower {
      assert ToLower(s.categories[k].name) in KnownNames(s.categories);
    }
  }

  // ---------------------------------------------------------------------
  // Skipped names

  /** The lower-cased names the user chose to skip. */
  function SkippedNames(names: seq<string>, res: map<string, Resolution>): set<string> {
    set i | 0 <= i < |names| && names[i] in res && res[names[i]].action == SkipCategory :: ToLower(names[i])
  }

  lemma ReadCategory(row: Row, s: ImportSetup)
    ensures Read(row, s).categoryName == GetField(row, Column(s.mapping, CategoryCol))
    ensures Read(row, s).category == ResolvedCategory(Read(row, s).categoryName, s)
  {
  }

  lemma JudgeCategoryNotFound(r: Reading, userId: string)
    requires forall c | Order(c) < Order(CategoryCheck) :: Holds(r, c)
    requires r.categoryName != "" && r.category.None?
    ensures Judge(r, userId) == Rejected(CategoryNotFound(r.categoryName))
  {
    assert Holds(r, DateCheck) && Holds(r, DescriptionCheck) && Holds(r, TypeCheck);
    assert Holds(r, AmountCheck) && Holds(r, CurrencyCheck) && Holds(r, AccountCheck);
  }

  /**
   * As written, a skipped name is not dropped: a row that names it, and that no other
   * spelling of the name gave an id, is rejected as having an unknown category.
   */
  lemma SkippedNameRejected(names: seq<string>, res: map<string, Resolution>, create: (string, Kind) -> Result<string>,
                            i: nat, row: Row, s: ImportSetup)
    requires i < |names| && names[i] in res && res[names[i]].action == SkipCategory
    requires Overrides(names, res, create).Some? && s.overrides == Overrides(names, res, create).value
    requires forall j | 0 <= j < |names| && ToLower(names[j]) == ToLower(names[i]) :: !NameOutcome(names[j], res, create).Record?
    requires IsUnknownName(names[i], KnownNames(s.categories))
    requires GetField(row, Column(s.mapping, CategoryCol)) == names[i]
    requires forall c | Order(c) < Order(CategoryCheck) :: Passes(row, s, c)
    ensures CheckRow(row, s) == Rejected(CategoryNotFound(names[i]))
  {
    SkippedUnresolved(names, res, create, i, s);
    var r := Read(row, s);
    ReadCategory(row, s);
    assert forall c :: Passes(row, s, c) == Holds(r, c);
    JudgeCategoryNotFound(r, s.userId);
    assert CheckRow(row, s) == Judge(r, s.userId);
  }

  /** A name skipped in every spelling, and unknown to the user's categories, resolves to no category. */
  lemma SkippedUnresolved(names: seq<string>, res: map<string, Resolution>, create: (string, Kind) -> Result<string>,
                          i: nat, s: ImportSetup)
    requires i < |names| && names[i] in res && res[names[i]].action == SkipCategory
    requires Overrides(names, res, create).Some? && s.overrides == Overrides(names, res, create).value
    requires forall j | 0 <= j < |names| && ToLower(names[j]) == ToLower(names[i]) :: !NameOutcome(names[j], res, create).Record?
    requires IsUnknownName(names[i], KnownNames(s.categories))
    ensures ResolvedCategory(names[i], s).None?
  {
    OverridesEntries(names, res, create);
    var lower := ToLower(names[i]);
    forall k | 0 <= k < |s.categories| ensures ToLower(s.categories[k].name) != lower {
      assert ToLower(s.categories[k].name) in KnownNames(s.categories);
    }
  }

  /** The reading with an unresolved skipped category name taken as no category. */
  function Skipping(r: Reading, skipped: set<string>): Reading {
    if r.category.None? && ToLower(r.categoryName) in skipped then r.(categoryName := "") else r
  }

  /** The validation of one row with skipped names dropped, as the resolve step promises. */
  function CheckRowSkipping(row: Row, s: ImportSetup, skipped: set<string>): RowResult {
    Judge(Skipping(Read(row, s), skipped), s.userId)
  }

  /** Dropping skipped names changes nothing for a row that does not name one. */
  lemma SkippingOnlySkipped(row: Row, s: ImportSetup, skipped: set<string>)
    requires ToLower(GetField(row, Column(s.mapping, CategoryCol))) !in skipped
    ensures CheckRowSkipping(row, s, skipped) == CheckRow(row, s)
  {
    ReadCategory(row, s);
  }

  lemma JudgeSkipped(r: Reading, userId: string, skipped: set<string>)
    requires forall c | Order(c) < Order(CategoryCheck) :: Holds(r, c)
    requires r.category.None? && ToLower(r.categoryName) in skipped
    ensures Judge(Skipping(r, skipped), userId).Accepted?
    ensures Judge(Skipping(r, skipped), userId).draft.categoryId.None?
  {
    var t := Skipping(r, skipped);
    assert Holds(r, DateCheck) && Holds(r, DescriptionCheck) && Holds(r, TypeCheck);
    assert Holds(r, AmountCheck) && Holds(r, CurrencyCheck) && Holds(r, AccountCheck);
    assert Holds(t, DateCheck) && Holds(t, DescriptionCheck) && Holds(t, TypeCheck);
    assert Holds(t, AmountCheck) && Holds(t, CurrencyCheck) && Holds(t, AccountCheck);
  }

  /**
   * With skipped names dropped, a row naming a skipped, unresolved name that passes the
   * other checks is imported with no category.
   */
  lemma SkippedNameImported(row: Row, s: ImportSetup, skipped: set<string>)
    requires forall c | Order(c) < Order(CategoryCheck) :: Passes(row, s, c)
    requires ToLower(GetField(row, Column(s.mapping, CategoryCol))) in skipped
    requires ResolvedCategory(GetField(row, Column(s.mapping, CategoryCol)), s).None?
    ensures CheckRowSkipping(row, s, skipped).Accepted?
    ensures CheckRowSkipping(row, s, skipped).draft.categoryId.None?
  {
    var r := Read(row, s);
    ReadCategory(row, s);
    assert forall c :: Passes(row, s, c) == Holds(r, c);
    JudgeSkipped(r, s.userId, skipped);
  }

  /**
   * The corrected flow on the input of `SkippedNameRejected`: with the skipped set taken from
   * the user's resolutions, the same row is imported with no category.
   */
  lemma SkippedResolutionImported(names: seq<string>, res: map<string, Resolution>, create: (string, Kind) -> Result<string>,
                                  i: nat, row: Row, s: ImportSetup)
    requires i < |names| && names[i] in res && res[names[i]].action == SkipCategory
    requires Overrides(names, res, create).Some? && s.overrides == Overrides(names, res, create).value
    requires forall j | 0 <= j < |names| && ToLower(names[j]) == ToLower(names[i]) :: !NameOutcome(names[j], res, create).Record?
    requires IsUnknownName(names[i], KnownNames(s.categories))
    requires GetField(row, Column(s.mapping, CategoryCol)) == names[i]
    requires forall c | Order(c) < Order(CategoryCheck) :: Passes(row, s, c)
    ensures CheckRowSkipping(row, s, SkippedNames(names, res)).Accepted?
    ensures CheckRowSkipping(row, s, SkippedNames(names, res)).draft.categoryId.None?
  {
    SkippedUnresolved(names, res, create, i, s);
    assert ToLower(names[i]) in SkippedNames(names, res);
    SkippedNameImported(row, s, SkippedNames(names, res));
  }

  // ---------------------------------------------------------------------
  // Row numbers of commit errors

  /** The file line (index + 2) of every accepted row, in order. */
  function AcceptedLines(rs: seq<RowResult>): seq<int> {
    if rs == [] then []
    else AcceptedLines(rs[..|rs| - 1]) + if rs[|rs| - 1].Accepted? then [|rs| + 1] else []
  }

  /** The k-th accepted draft comes from the row on line `AcceptedLines(rs)[k]`, at least `k + 2`. */
  lemma AcceptedLinesMatch(rs: seq<RowResult>)
    ensures |AcceptedLines(rs)| == |AcceptedOf(rs)| <= |rs|
    ensures forall k | 0 <= k < |AcceptedLines(rs)| ::
      && k + 2 <= AcceptedLines(rs)[k] <= |rs| + 1
      && rs[AcceptedLines(rs)[k] - 2] == Accepted(AcceptedOf(rs)[k])
    ensures forall k, l | 0 <= k < l < |AcceptedLines(rs)| :: AcceptedLines(rs)[k] < AcceptedLines(rs)[l]
  {
    AcceptedLinesCount(rs);
    AcceptedLinesRows(rs);
    AcceptedLinesAscending(rs);
  }

  lemma {:induction false} AcceptedLinesCount(rs: seq<RowResult>)
    ensures |AcceptedLines(rs)| == |AcceptedOf(rs)| <= |rs|
  {
    if rs != [] {
      AcceptedLinesCount(rs[..|rs| - 1]);
    }
  }

  lemma {:induction false} AcceptedLinesRows(rs: seq<RowResult>)
    ensures |AcceptedLines(rs)| == |AcceptedOf(rs)|
    ensures forall k | 0 <= k < |AcceptedLines(rs)| ::
      && k + 2 <= AcceptedLines(rs)[k] <= |rs| + 1
      && rs[AcceptedLines(rs)[k] - 2] == Accepted(AcceptedOf(rs)[k])
  {
    AcceptedLinesCount(rs);
    if rs != [] {
      var init := rs[..|rs| - 1];
      AcceptedLinesRows(init);
      var lines, prev := AcceptedLines(rs), AcceptedLines(init);
      var last := rs[|rs| - 1];
      assert lines == prev + if last.Accepted? then [|rs| + 1] else [];
      assert AcceptedOf(rs) == AcceptedOf(init) + if last.Accepted? then [last.draft] else [];
      forall k | 0 <= k < |lines|
        ensures k + 2 <= lines[k] <= |rs| + 1 && rs[lines[k] - 2] == Accepted(AcceptedOf(rs)[k])
      {
        if k < |prev| {
          assert lines[k] == prev[k];
          assert AcceptedOf(rs)[k] == AcceptedOf(init)[k];
          assert init[prev[k] - 2] == rs[prev[k] - 2];
        } else {
          assert lines[k] == |rs| + 1 && AcceptedOf(rs)[k] == last.draft;
        }
      }
    }
  }

  lemma {:induction false} AcceptedLinesAscending(rs: seq<RowResult>)
    ensures forall k | 0 <= k < |AcceptedLines(rs)| :: AcceptedLines(rs)[k] <= |rs| + 1
    ensures forall k, l | 0 <= k < l < |AcceptedLines(rs)| :: AcceptedLines(rs)[k] < AcceptedLines(rs)[l]
  {
    if rs != [] {
      var init := rs[..|rs| - 1];
      AcceptedLinesAscending(init);
      var lines, prev := AcceptedLines(rs), AcceptedLines(init);
      assert lines == prev + if rs[|rs| - 1].Accepted? then [|rs| + 1] else [];
      forall k | 0 <= k < |lines| ensures lines[k] <= |rs| + 1 {
        if k < |prev| {
          assert lines[k] == prev[k];
        }
      }
      forall k, l | 0 <= k < l < |lines| ensures lines[k] < lines[l] {
        assert lines[k] == prev[k];
        if l < |prev| {
          assert lines[l] == prev[l];
        }
      }
    }
  }

  /**
   * As written, a commit error is numbered by the draft's position among the accepted
   * drafts, which always falls before the file line of the row it concerns; the first
   * draft's error names line 1, the header.
   */
  lemma CommitErrorsMisnumbered(rs: seq<RowResult>, faults: seq<Transactions.StoreFault>)
    requires |faults| == |AcceptedOf(rs)|
    ensures forall k | 0 <= k < |CommitErrors(AcceptedOf(rs), faults)| ::
      && 1 <= CommitErrors(AcceptedOf(rs), faults)[k].row <= |AcceptedLines(rs)|
      && CommitErrors(AcceptedOf(rs), faults)[k].row < AcceptedLines(rs)[CommitErrors(AcceptedOf(rs), faults)[k].row - 1]
    ensures faults != [] && !Commits(faults[0]) ==>
      CommitErrors(AcceptedOf(rs), faults) != [] && CommitErrors(AcceptedOf(rs), faults)[0].row == 1
  {
    var drafts := AcceptedOf(rs);
    CommitErrorRows(drafts, faults);
    AcceptedLinesMatch(rs);
    if faults != [] && !Commits(faults[0]) {
      var errs := CommitErrors(drafts, faults);
      FirstCommitError(drafts, faults);
    }
  }

  lemma {:induction false} FirstCommitError(drafts: seq<Draft>, faults: seq<Transactions.StoreFault>)
    requires |faults| == |drafts| && drafts != [] && !Commits(faults[0])
    ensures CommitErrors(drafts, faults) != [] && CommitErrors(drafts, faults)[0].row == 1
  {
    if |drafts| > 1 {
      var n := |drafts| - 1;
      FirstCommitError(drafts[..n], faults[..n]);
    }
  }

  /** Commit errors renumbered by the file line of the draft they concern. */
  function Renumbered(errors: seq<ImportError>, lines: seq<int>): (r: seq<ImportError>)
    ensures |r| == |errors|
  {
    seq(|errors|, k requires 0 <= k < |errors| =>
      var e := errors[k];
      ImportError(if 1 <= e.row <= |lines| then lines[e.row - 1] else e.row, e.message))
  }

  /**
   * Renumbered, the commit errors name the file lines of accepted rows whose commit failed,
   * with the store's message, in increasing order; no validation error names those lines.
   */
  lemma RenumberedCommitErrors(rs: seq<RowResult>, faults: seq<Transactions.StoreFault>)
    requires |faults| == |AcceptedOf(rs)|
    ensures forall k | 0 <= k < |CommitErrors(AcceptedOf(rs), faults)| ::
      var e := Renumbered(CommitErrors(AcceptedOf(rs), faults), AcceptedLines(rs))[k];
      && 2 <= e.row <= |rs| + 1
      && rs[e.row - 2].Accepted?
      && 1 <= CommitErrors(AcceptedOf(rs), faults)[k].row <= |faults|
      && !Commits(faults[CommitErrors(AcceptedOf(rs), faults)[k].row - 1])
      && e.message == faults[CommitErrors(AcceptedOf(rs), faults)[k].row - 1].message
    ensures forall k, l | 0 <= k < l < |CommitErrors(AcceptedOf(rs), faults)| ::
      Renumbered(CommitErrors(AcceptedOf(rs), faults), AcceptedLines(rs))[k].row
        < Renumbered(CommitErrors(AcceptedOf(rs), faults), AcceptedLines(rs))[l].row
    ensures forall k, l | 0 <= k < |ErrorsOf(rs)| && 0 <= l < |CommitErrors(AcceptedOf(rs), faults)| ::
      ErrorsOf(rs)[k].row != Renumbered(CommitErrors(AcceptedOf(rs), faults), AcceptedLines(rs))[l].row
  {
    var drafts := AcceptedOf(rs);
    var errs := CommitErrors(drafts, faults);
    var lines := AcceptedLines(rs);
    var ren := Renumbered(errs, lines);
    CommitErrorRows(drafts, faults);
    AcceptedLinesMatch(rs);
    ErrorsNameRejected(rs);
    forall k | 0 <= k < |errs| ensures ren[k].row == lines[errs[k].row - 1] {
    }
  }

  // ---------------------------------------------------------------------
  // The import

  /** The store's answers to the first `n` commits. */
  function Answers(answer: nat -> Transactions.StoreFault, n: nat): (faults: seq<Transactions.StoreFault>)
    ensures |faults| == n
  {
    seq(n, i requires 0 <= i < n => answer(i))
  }

  /** The validation of every row with skipped names dropped. */
  function ResultsSkipping(rows: seq<Row>, s: ImportSetup, skipped: set<string>): seq<RowResult> {
    Checked(rows, row => CheckRowSkipping(row, s, skipped))
  }

  /** `processCSVRows` with skipped names dropped. */
  method ProcessRowsSkipping(rows: seq<Row>, s: ImportSetup, skipped: set<string>) returns (valid: seq<Draft>, errors: seq<ImportError>)
    ensures valid == AcceptedOf(ResultsSkipping(rows, s, skipped))
    ensures errors == ErrorsOf(ResultsSkipping(rows, s, skipped))
  {
    valid, errors := SortRows(rows, row => CheckRowSkipping(row, s, skipped));
  }

  /** The commit half of `doImport`: nothing when there is no draft, else `importTransactions`. */
  method CommitDrafts(ledger: Transactions.Ledger, valid: seq<Draft>, answer: nat -> Transactions.StoreFault)
    returns (imported: nat, commitErrors: seq<ImportError>)
    requires ledger.Valid()
    modifies ledger
    ensures ledger.Valid()
    ensures valid == [] ==> imported == 0 && commitErrors == [] && ledger.entries == old(ledger.entries)
    ensures commitErrors == CommitErrors(valid, Answers(answer, |valid|))
    ensures |ledger.entries| == |old(ledger.entries)| + imported
    ensures ledger.entries[..|old(ledger.entries)|] == old(ledger.entries)
    ensures Fields(ledger.entries[|old(ledger.entries)|..]) == CommittedDrafts(valid, Answers(answer, |valid|))
  {
    if |valid| == 0 {
      assert ledger.entries[|ledger.entries|..] == [] && ledger.entries[..|ledger.entries|] == ledger.entries;
      return 0, [];
    }
    var progress;
    imported, commitErrors, progress := ImportTransactions(ledger, valid, Answers(answer, |valid|));
  }

  /**
   * `doImport` as written: validate every row; with no valid row, report the validation
   * errors only and write nothing; otherwise commit the drafts in order and report the
   * validation errors followed by the commit errors, numbered as `importTransactions`
   * numbers them. `answer(i)` is the store's answer to the i-th commit.
   */
  method DoImportAsWritten(ledger: Transactions.Ledger, rows: seq<Row>, s: ImportSetup, answer: nat -> Transactions.StoreFault)
    returns (imported: nat, errors: seq<ImportError>)
    requires ledger.Valid()
    modifies ledger
    ensures ledger.Valid()
    ensures AcceptedOf(Results(rows, s)) == [] ==> imported == 0 && ledger.entries == old(ledger.entries)
    ensures errors == ErrorsOf(Results(rows, s))
      + CommitErrors(AcceptedOf(Results(rows, s)), Answers(answer, |AcceptedOf(Results(rows, s))|))
    ensures |ledger.entries| >= |old(ledger.entries)| && ledger.entries[..|old(ledger.entries)|] == old(ledger.entries)
    ensures Fields(ledger.entries[|old(ledger.entries)|..]) ==
      CommittedDrafts(AcceptedOf(Results(rows, s)), Answers(answer, |AcceptedOf(Results(rows, s))|))
  {
    var valid, validationErrors := ProcessCsvRows(rows, s);
    var commitErrors;
    imported, commitErrors := CommitDrafts(ledger, valid, answer);
    errors := validationErrors + commitErrors;
  }

  /**
   * `doImport` as the dialog means it: skipped names are dropped from the rows, and each
   * commit error names the file line of the row it concerns, so that every reported row
   * is a line of the file. The dialog passes as `skipped` the `SkippedNames` of the user's
   * resolutions.
   */
  method DoImport(ledger: Transactions.Ledger, rows: seq<Row>, s: ImportSetup, skipped: set<string>,
                  answer: nat -> Transactions.StoreFault)
    returns (imported: nat, errors: seq<ImportError>)
    requires ledger.Valid()
    modifies ledger
    ensures ledger.Valid()
    ensures AcceptedOf(ResultsSkipping(rows, s, skipped)) == [] ==> imported == 0 && ledger.entries == old(ledger.entries)
    ensures errors == ErrorsOf(ResultsSkipping(rows, s, skipped))
      + Renumbered(CommitErrors(AcceptedOf(ResultsSkipping(rows, s, skipped)),
                                Answers(answer, |AcceptedOf(ResultsSkipping(rows, s, skipped))|)),
                   AcceptedLines(ResultsSkipping(rows, s, skipped)))
    ensures |ledger.entries| >= |old(ledger.entries)| && ledger.entries[..|old(ledger.entries)|] == old(ledger.entries)
    ensures Fields(ledger.entries[|old(ledger.entries)|..]) ==
      CommittedDrafts(AcceptedOf(ResultsSkipping(rows, s, skipped)),
                      Answers(answer, |AcceptedOf(ResultsSkipping(rows, s, skipped))|))
  {
    var valid, validationErrors := ProcessRowsSkipping(rows, s, skipped);
    var commitErrors;
    imported, commitErrors := CommitDrafts(ledger, valid, answer);
    errors := validationErrors + Renumbered(commitErrors, AcceptedLines(ResultsSkipping(rows, s, skipped)));
  }
}
