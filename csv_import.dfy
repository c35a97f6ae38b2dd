/**
 * The import engine: header-alias column detection, the field coercers for
 * dates, amounts, types and currencies, unknown-category discovery, the row
 * validator that splits rows into drafts and errors, and the sequential
 * batch importer that commits drafts through the ledger.
 */
module CsvImport {
  import opened Wrappers
  import opened Text
  import opened Numbers
  import opened Domain
  import opened Sorting
  import Transactions

  // ---------------------------------------------------------------------
  // Column mapping

  /** The fields of a `ColumnMapping`. */
  datatype Field =
    | DateCol | DescriptionCol | TypeCol | AmountCol | CurrencyCol
    | CategoryCol | AccountCol | MerchantCol | NotesCol

  /** Field to column index; a field with no key is unmapped (`null`). */
  type ColumnMapping = map<Field, nat>

  /** `HEADER_ALIASES`: normalised header text to the field it names. */
  const HeaderAliases: map<string, Field> := map[
    "fecha" := DateCol, "date" := DateCol,
    "descripcion" := DescriptionCol, "description" := DescriptionCol,
    "tipo" := TypeCol, "type" := TypeCol,
    "monto" := AmountCol, "amount" := AmountCol, "precio unid." := AmountCol, "precio unid" := AmountCol,
    "precio" := AmountCol, "valor" := AmountCol, "total compra" := AmountCol,
    "moneda" := CurrencyCol, "currency" := CurrencyCol,
    "categoria" := CategoryCol, "category" := CategoryCol, "concepto" := CategoryCol,
    "cuenta" := AccountCol, "account" := AccountCol, "metodo de pago" := AccountCol,
    "comercio" := MerchantCol, "merchant" := MerchantCol, "establecimiento" := MerchantCol,
    "tienda" := MerchantCol, "compra en" := MerchantCol, "lugar" := MerchantCol,
    "notas" := NotesCol, "notes" := NotesCol
  ]

  function Alias(key: string): Option<Field> {
    if key in HeaderAliases then Some(HeaderAliases[key]) else None
  }

  /** A combining diacritical mark (U+0300-U+036F), which the detector deletes after decomposition. */
  predicate IsCombiningMark(c: char) {
    '\U{0300}' <= c <= '\U{036F}'
  }

  /**
   * Canonical decomposition followed by deletion of the combining marks, for one
   * (already lower-cased) character: a Latin-1 letter with a diacritic becomes its base letter.
   */
  function FoldChar(c: char): (r: string)
    ensures forall i | 0 <= i < |r| :: !IsCombiningMark(r[i])
    ensures !IsCombiningMark(c) && c > '\U{00FF}' ==> r == [c]
    ensures !IsCombiningMark(c) ==> |r| == 1 && (r[0] == c || (Accented(c) && 'a' <= r[0] <= 'z'))
  {
    if IsCombiningMark(c) then ""
    else if '\U{00E0}' <= c <= '\U{00E5}' then "a"
    else if c == '\U{00E7}' then "c"
    else if '\U{00E8}' <= c <= '\U{00EB}' then "e"
    else if '\U{00EC}' <= c <= '\U{00EF}' then "i"
    else if c == '\U{00F1}' then "n"
    else if '\U{00F2}' <= c <= '\U{00F6}' then "o"
    else if '\U{00F9}' <= c <= '\U{00FC}' then "u"
    else if c == '\U{00FD}' || c == '\U{00FF}' then "y"
    else [c]
  }

  /** A Latin-1 lower-case letter with a diacritic (the range the decomposition table covers). */
  predicate Accented(c: char) {
    '\U{00E0}' <= c <= '\U{00FF}'
  }

  /**
   * `s.normalize("NFD").replace(/[̀-ͯ]/g, "")` over the Latin-1 letters: combining marks are
   * dropped, and otherwise each character is kept or, if it is an accented letter, replaced by
   * its ASCII base letter.
   */
  function StripAccents(s: string): (r: string)
    ensures forall i | 0 <= i < |r| :: !IsCombiningMark(r[i])
    ensures (forall i | 0 <= i < |s| :: !IsCombiningMark(s[i])) ==>
      |r| == |s| && forall i | 0 <= i < |s| :: r[i] == s[i] || (Accented(s[i]) && 'a' <= r[i] <= 'z')
  {
    if s == [] then "" else FoldChar(s[0]) + StripAccents(s[1..])
  }

  /** Text whose characters each fold to one given character folds to the text of those characters. */
  lemma {:induction false} StripAccentsEach(s: string, t: string)
    requires |t| == |s| && forall i | 0 <= i < |s| :: FoldChar(s[i]) == [t[i]]
    ensures StripAccents(s) == t
  {
    if s != [] {
      assert FoldChar(s[0]) == [t[0]];
      StripAccentsEach(s[1..], t[1..]);
      assert t == [t[0]] + t[1..];
    }
  }

  /** Text made of characters below U+00C0 and no combining mark is left as it is. */
  lemma {:induction false} StripAccentsPlain(s: string)
    requires forall i | 0 <= i < |s| :: s[i] < '\U{00C0}'
    ensures StripAccents(s) == s
  {
    if s != [] {
      StripAccentsPlain(s[1..]);
    }
  }

  /** A header as the detector compares it: trimmed, lower-cased, accents removed. */
  function NormalizeHeader(h: string): string {
    StripAccents(ToLower(Trim(h)))
  }

  /** The field a header names, if any. */
  function HeaderField(h: string): Option<Field> {
    Alias(NormalizeHeader(h))
  }

  /** A header without surrounding space whose characters lower-case and fold to an alias names the alias's field. */
  lemma {:induction false} FoldedHeader(h: string, folded: string, f: Field)
    requires h != [] && !IsSpace(h[0]) && !IsSpace(h[|h| - 1])
    requires |folded| == |h| && forall i | 0 <= i < |h| :: FoldChar(LowerChar(h[i])) == [folded[i]]
    requires folded in HeaderAliases && HeaderAliases[folded] == f
    ensures HeaderField(h) == Some(f)
  {
    TrimNoSpace(h);
    StripAccentsEach(ToLower(h), folded);
  }

  /** The Spanish header "Descripción", accent included, names the description. */
  lemma DescriptionAccented()
    ensures HeaderField("Descripci\U{00F3}n") == Some(DescriptionCol)
  {
    FoldedHeader("Descripci\U{00F3}n", "descripcion", DescriptionCol);
  }

  /** The Spanish header "Categoría", accent included, names the category. */
  lemma CategoryAccented()
    ensures HeaderField("Categor\U{00ED}a") == Some(CategoryCol)
  {
    FoldedHeader("Categor\U{00ED}a", "categoria", CategoryCol);
  }

  /** The Spanish header "Método de pago", accent included, names the account. */
  lemma AccountAccented()
    ensures HeaderField("M\U{00E9}todo de pago") == Some(AccountCol)
  {
    FoldedHeader("M\U{00E9}todo de pago", "metodo de pago", AccountCol);
  }

  /** The field each header names. */
  function Labels(headers: seq<string>): (labels: seq<Option<Field>>)
    ensures |labels| == |headers|
    ensures forall i | 0 <= i < |headers| :: labels[i] == HeaderField(headers[i])
  {
    seq(|headers|, i requires 0 <= i < |headers| => HeaderField(headers[i]))
  }

  /** The first-claim fold over the columns' labels: a field takes the first column labelled with it. */
  function Detect(labels: seq<Option<Field>>): (m: ColumnMapping)
    ensures forall f | f in m :: m[f] < |labels|
  {
    if labels == [] then map[]
    else
      var m := Detect(labels[..|labels| - 1]);
      match labels[|labels| - 1]
      case Some(f) => if f in m then m else m[f := |labels| - 1]
      case None => m
  }

  /** `detectColumnMapping` over the headers. */
  function DetectedMapping(headers: seq<string>): ColumnMapping {
    Detect(Labels(headers))
  }

  /** One more column: its label, if any and not yet claimed, claims the column. */
  lemma DetectStep(labels: seq<Option<Field>>, i: nat)
    requires i < |labels|
    ensures Detect(labels[..i + 1]) ==
      match labels[i]
      case Some(f) => if f in Detect(labels[..i]) then Detect(labels[..i]) else Detect(labels[..i])[f := i]
      case None => Detect(labels[..i])
  {
    assert labels[..i + 1][..i] == labels[..i];
  }

  /** `detectColumnMapping(headers)`: a loop over the headers that lets the first column naming a field claim it. */
  method DetectColumnMapping(headers: seq<string>) returns (m: ColumnMapping)
    ensures m == DetectedMapping(headers)
  {
    ghost var labels := Labels(headers);
    m := map[];
    for i := 0 to |headers|
      invariant m == Detect(labels[..i])
    {
      DetectStep(labels, i);
      var alias := HeaderField(headers[i]);
      assert alias == labels[i];
      if alias.Some? {
        var field := alias.value;
        if field !in m {
          m := m[field := i];
        }
      }
    }
    assert labels[..|headers|] == labels;
  }

  /**
   * A field is mapped exactly when some column is labelled with it, and then to the first
   * such column; every assigned index is a column of the input.
   */
  lemma DetectFirstMatch(labels: seq<Option<Field>>)
    ensures var m := Detect(labels);
      && (forall f | f in m :: m[f] < |labels| && labels[m[f]] == Some(f))
      && (forall f | f in m :: forall j | 0 <= j < m[f] :: labels[j] != Some(f))
      && (forall j | 0 <= j < |labels| :: labels[j].Some? ==> labels[j].value in m)
  {
    DetectClaims(labels);
    DetectFirst(labels);
    DetectComplete(labels);
  }

  /** The last column's label extends the mapping of the columns before it. */
  lemma DetectLast(labels: seq<Option<Field>>)
    requires labels != []
    ensures var init := labels[..|labels| - 1];
      && (forall j | 0 <= j < |init| :: init[j] == labels[j])
      && Detect(labels) ==
        match labels[|labels| - 1]
        case Some(f) => if f in Detect(init) then Detect(init) else Detect(init)[f := |labels| - 1]
        case None => Detect(init)
  {
  }

  /** Every mapped field points at a column labelled with it. */
  lemma {:induction false} DetectClaims(labels: seq<Option<Field>>)
    ensures var m := Detect(labels); forall f | f in m :: m[f] < |labels| && labels[m[f]] == Some(f)
  {
    if labels != [] {
      DetectClaims(labels[..|labels| - 1]);
      DetectLast(labels);
    }
  }

  /** Every labelled column's field is mapped. */
  lemma {:induction false} DetectComplete(labels: seq<Option<Field>>)
    ensures var m := Detect(labels); forall j | 0 <= j < |labels| :: labels[j].Some? ==> labels[j].value in m
  {
    if labels != [] {
      DetectComplete(labels[..|labels| - 1]);
      DetectLast(labels);
    }
  }

  /** No column before the mapped one is labelled with the same field. */
  lemma {:induction false} DetectFirst(labels: seq<Option<Field>>)
    ensures var m := Detect(labels); forall f | f in m :: forall j | 0 <= j < m[f] :: labels[j] != Some(f)
  {
    if labels != [] {
      var init := labels[..|labels| - 1];
      DetectFirst(init);
      DetectComplete(init);
      DetectLast(labels);
    }
  }

  /** The detector's mapping in terms of the headers: first matching column wins, and no two fields share a column. */
  lemma DetectedFirstMatch(headers: seq<string>)
    ensures var m := DetectedMapping(headers);
      && (forall f | f in m :: m[f] < |headers| && HeaderField(headers[m[f]]) == Some(f))
      && (forall f | f in m :: forall j | 0 <= j < m[f] :: HeaderField(headers[j]) != Some(f))
      && (forall j | 0 <= j < |headers| :: HeaderField(headers[j]).Some? ==> HeaderField(headers[j]).value in m)
      && (forall f, g | f in m && g in m && f != g :: m[f] != m[g])
  {
    DetectFirstMatch(Labels(headers));
  }

  // ---------------------------------------------------------------------
  // Dates

  /** `/^\d{4}-\d{2}-\d{2}$/`: the `full-date` shape of section 5.6 of RFC 3339, without range checks. */
  predicate IsoShape(t: string) {
    && |t| == 10
    && AllDigits(t[..4]) && t[4] == '-' && AllDigits(t[5..7]) && t[7] == '-' && AllDigits(t[8..])
  }

  /** `D/M/YYYY` with `dl` digits of day and `ml` digits of month. */
  predicate SlashAt(t: string, dl: nat, ml: nat) {
    && |t| == dl + ml + 6
    && AllDigits(t[..dl]) && t[dl] == '/' && AllDigits(t[dl + 1..dl + 1 + ml])
    && t[dl + 1 + ml] == '/' && AllDigits(t[dl + ml + 2..])
  }

  /** `/^(\d{1,2})\/(\d{1,2})\/(\d{4})$/`. */
  predicate SlashShape(t: string) {
    SlashAt(t, 1, 1) || SlashAt(t, 1, 2) || SlashAt(t, 2, 1) || SlashAt(t, 2, 2)
  }

  /** The rewrite of a `D/M/YYYY` text to `YYYY-MM-DD`, when the text has that shape. */
  function SlashDate(t: string): (r: Option<string>)
    ensures r.Some? ==> IsoShape(r.value)
  {
    var i := IndexOf(t, '/');
    if i < 1 || i > 2 then None else SlashRest(t[..i], t[i + 1..])
  }

  /** After the day and its slash: the month, a second slash and a four-character year. */
  function SlashRest(day: string, rest: string): (r: Option<string>)
    requires 1 <= |day| <= 2
    ensures r.Some? ==> IsoShape(r.value)
  {
    var j := IndexOf(rest, '/');
    if j < 1 || j > 2 || |rest| != j + 5 then None else SlashParts(day, rest[..j], rest[j + 1..])
  }

  /** The three parts, when all are digits, rearranged as `YYYY-MM-DD`. */
  function SlashParts(day: string, month: string, year: string): (r: Option<string>)
    requires 1 <= |day| <= 2 && 1 <= |month| <= 2 && |year| == 4
    ensures r.Some? ==> IsoShape(r.value)
  {
    if AllDigits(day) && AllDigits(month) && AllDigits(year) then
      IsoJoin(year, month, day);
      Some(year + "-" + PadTwo(month) + "-" + PadTwo(day))
    else None
  }

  /** A four-digit year with the month and day padded to two digits has the ISO shape. */
  lemma IsoJoin(year: string, month: string, day: string)
    requires |year| == 4 && 1 <= |month| <= 2 && 1 <= |day| <= 2
    requires AllDigits(day) && AllDigits(month) && AllDigits(year)
    ensures IsoShape(year + "-" + PadTwo(month) + "-" + PadTwo(day))
  {
    PadTwoDigits(month);
    PadTwoDigits(day);
    var r := year + "-" + PadTwo(month) + "-" + PadTwo(day);
    assert r[..4] == year && r[5..7] == PadTwo(month) && r[8..] == PadTwo(day);
  }

  lemma PadTwoDigits(s: string)
    requires 1 <= |s| <= 2 && AllDigits(s)
    ensures |PadTwo(s)| == 2 && AllDigits(PadTwo(s))
  {
    if |s| == 1 {
      assert PadTwo(s) == ['0', s[0]];
    }
  }

  /** `parseDate`: ISO dates unchanged, `D/M/YYYY` rewritten with zero padding, anything else rejected. */
  function ParseDate(value: string): (r: Option<string>)
    ensures r.Some? ==> IsoShape(r.value) && |r.value| == 10
    ensures r.Some? <==> IsoShape(Trim(value)) || SlashShape(Trim(value))
  {
    var t := Trim(value);
    SlashDateShape(t);
    if IsoShape(t) then Some(t) else SlashDate(t)
  }

  /** The slash rewrite applies exactly to the texts of the slash shape. */
  lemma SlashDateShape(t: string)
    ensures SlashDate(t).Some? <==> SlashShape(t)
  {
    if SlashShape(t) {
      var dl := if SlashAt(t, 1, 1) || SlashAt(t, 1, 2) then 1 else 2;
      var ml := if SlashAt(t, dl, 1) then 1 else 2;
      SlashAtRewritten(t, dl, ml);
    }
    if SlashDate(t).Some? {
      RewrittenSlashAt(t);
    }
  }

  lemma SlashAtRewritten(t: string, dl: nat, ml: nat)
    requires 1 <= dl <= 2 && 1 <= ml <= 2 && SlashAt(t, dl, ml)
    ensures SlashDate(t).Some?
  {
    assert IndexOf(t, '/') == dl by {
      assert '/' !in t[..dl] by {
        assert forall k | 0 <= k < dl :: IsDigit(t[..dl][k]);
      }
      IndexOfAt(t, '/', dl);
    }
    var rest := t[dl + 1..];
    assert rest[..ml] == t[dl + 1..dl + 1 + ml];
    assert IndexOf(rest, '/') == ml by {
      assert '/' !in rest[..ml] by {
        assert forall k | 0 <= k < ml :: IsDigit(rest[..ml][k]);
      }
      IndexOfAt(rest, '/', ml);
    }
    assert rest[ml + 1..] == t[dl + ml + 2..];
  }

  lemma RewrittenSlashAt(t: string)
    requires SlashDate(t).Some?
    ensures SlashShape(t)
  {
    var i := IndexOf(t, '/');
    var rest := t[i + 1..];
    var j := IndexOf(rest, '/');
    SlashAtParts(t, i, j);
  }

  /** `SlashAt` read through the rest of the text after the first slash. */
  lemma SlashAtParts(t: string, dl: nat, ml: nat)
    requires dl < |t| && |t| == dl + ml + 6
    requires AllDigits(t[..dl]) && t[dl] == '/'
    requires ml < |t[dl + 1..]| && AllDigits(t[dl + 1..][..ml]) && t[dl + 1..][ml] == '/' && AllDigits(t[dl + 1..][ml + 1..])
    ensures SlashAt(t, dl, ml)
  {
    var rest := t[dl + 1..];
    assert t[dl + 1..dl + 1 + ml] == rest[..ml];
    assert t[dl + ml + 2..] == rest[ml + 1..];
  }

  /** The first occurrence is where `c` is, when nothing before it is `c`. */
  lemma IndexOfAt(s: string, c: char, k: nat)
    requires k < |s| && s[k] == c && c !in s[..k]
    ensures IndexOf(s, c) == k
  {
  }

  /** An ISO date is its own parse, so `ParseDate` is idempotent. */
  lemma ParseDateIdempotent(value: string)
    requires ParseDate(value).Some?
    ensures ParseDate(ParseDate(value).value) == ParseDate(value)
  {
    IsoParsed(ParseDate(value).value);
  }

  /** An ISO date parses to itself. */
  lemma IsoParsed(t: string)
    requires IsoShape(t)
    ensures ParseDate(t) == Some(t)
  {
    assert IsDigit(t[..4][0]) && IsDigit(t[8..][1]);
    TrimNoSpace(t);
  }

  /** `D/M/YYYY` becomes `YYYY-MM-DD` with the day and month padded to two digits. */
  lemma ParseDateSlash(day: string, month: string, year: string)
    requires 1 <= |day| <= 2 && 1 <= |month| <= 2 && |year| == 4
    requires AllDigits(day) && AllDigits(month) && AllDigits(year)
    ensures ParseDate(day + "/" + month + "/" + year) == Some(year + "-" + PadTwo(month) + "-" + PadTwo(day))
  {
    var t := day + "/" + month + "/" + year;
    SlashTextTrimmed(day, month, year);
    SlashTextRewritten(day, month, year);
  }

  lemma SlashTextTrimmed(day: string, month: string, year: string)
    requires 1 <= |day| <= 2 && 1 <= |month| <= 2 && |year| == 4
    requires AllDigits(day) && AllDigits(month) && AllDigits(year)
    ensures var t := day + "/" + month + "/" + year; Trim(t) == t && !IsoShape(t)
  {
    var t := day + "/" + month + "/" + year;
    assert IsDigit(t[0]) && IsDigit(t[|t| - 1]);
    TrimNoSpace(t);
    assert !IsoShape(t) by {
      if |t| == 10 {
        assert t[|day|] == '/';
      }
    }
  }

  lemma SlashTextRewritten(day: string, month: string, year: string)
    requires 1 <= |day| <= 2 && 1 <= |month| <= 2 && |year| == 4
    requires AllDigits(day) && AllDigits(month) && AllDigits(year)
    ensures SlashDate(day + "/" + month + "/" + year) == Some(year + "-" + PadTwo(month) + "-" + PadTwo(day))
  {
    var t := day + "/" + month + "/" + year;
    var rest := month + "/" + year;
    assert t == day + "/" + rest;
    SlashDateSplit(day, rest);
    SlashRestSplit(day, month, year);
  }

  /** One or two digits and a slash: the rest is read after that slash. */
  lemma SlashDateSplit(day: string, rest: string)
    requires 1 <= |day| <= 2 && AllDigits(day)
    ensures SlashDate(day + "/" + rest) == SlashRest(day, rest)
  {
    FirstSlash(day, rest);
  }

  /** One or two digits, a slash and four characters: the parts are the month and the year. */
  lemma SlashRestSplit(day: string, month: string, year: string)
    requires 1 <= |day| <= 2 && 1 <= |month| <= 2 && |year| == 4 && AllDigits(month)
    ensures SlashRest(day, month + "/" + year) == SlashParts(day, month, year)
  {
    FirstSlash(month, year);
  }

  /** In digits, a slash and more text, the first slash follows the digits. */
  lemma FirstSlash(ds: string, rest: string)
    requires AllDigits(ds)
    ensures var t := ds + "/" + rest;
      IndexOf(t, '/') == |ds| && t[..|ds|] == ds && t[|ds| + 1..] == rest
  {
    var t := ds + "/" + rest;
    assert t[..|ds|] == ds;
    assert '/' !in ds by {
      assert forall k | 0 <= k < |ds| :: IsDigit(ds[k]);
    }
    IndexOfAt(t, '/', |ds|);
    assert t[|ds| + 1..] == rest;
  }

  // ---------------------------------------------------------------------
  // Amounts

  predicate IsCurrencySymbol(c: char) {
    c == '$' || c == '\U{20AC}' || c == '\U{00A3}' || c == '\U{00A5}'
  }

  /** `s.replace(/[$€£¥]/g, "")`. */
  function RemoveSymbols(s: string): (r: string)
    ensures forall i | 0 <= i < |r| :: !IsCurrencySymbol(r[i])
    ensures (forall i | 0 <= i < |s| :: !IsCurrencySymbol(s[i])) ==> r == s
  {
    if s == [] then ""
    else if IsCurrencySymbol(s[0]) then RemoveSymbols(s[1..])
    else [s[0]] + RemoveSymbols(s[1..])
  }

  /** `/,\d{2}$/`: the text ends with a comma and two digits. */
  predicate EndsCommaTwoDigits(s: string) {
    |s| >= 3 && s[|s| - 3] == ',' && IsDigit(s[|s| - 2]) && IsDigit(s[|s| - 1])
  }

  /** `/,\d{3}$/`: the text ends with a comma and three digits. */
  predicate EndsCommaThreeDigits(s: string) {
    |s| >= 4 && s[|s| - 4] == ',' && IsDigit(s[|s| - 3]) && IsDigit(s[|s| - 2]) && IsDigit(s[|s| - 1])
  }

  /** The separator rewriting of `parseAmount`, applied to the trimmed, symbol-free text. */
  function NormalizeSeparators(cleaned: string): string {
    if '.' in cleaned && ',' in cleaned then
      if LastIndexOf(cleaned, ',') > LastIndexOf(cleaned, '.') then ReplaceFirst(RemoveAll(cleaned, '.'), ',', '.')
      else RemoveAll(cleaned, ',')
    else if ',' in cleaned then
      if EndsCommaTwoDigits(cleaned) && !EndsCommaThreeDigits(cleaned) then ReplaceFirst(cleaned, ',', '.')
      else RemoveAll(cleaned, ',')
    else if '.' in cleaned then
      if Count(cleaned, '.') + 1 > 2 then RemoveAll(cleaned, '.') else cleaned
    else cleaned
  }

  /** The text `parseAmount` hands to `parseFloat`. */
  function CleanAmount(value: string): string {
    NormalizeSeparators(Trim(RemoveSymbols(Trim(value))))
  }

  /** `parseAmount`: `None` when nothing parses, otherwise the absolute value, never negative. */
  function ParseAmount(value: string): (r: Option<real>)
    ensures r.Some? ==> r.value >= 0.0
    ensures r.Some? <==> ParseFloat(CleanAmount(value)).Some?
    ensures r.Some? ==> r.value == Abs(ParseFloat(CleanAmount(value)).value)
  {
    match ParseFloat(CleanAmount(value))
    case None => None
    case Some(x) => Some(Abs(x))
  }

  /** Digits, commas and dots only. */
  predicate Numeric(s: string) {
    forall i | 0 <= i < |s| :: IsDigit(s[i]) || s[i] == ',' || s[i] == '.'
  }

  /** Digits and one kind of grouping separator, starting and ending with a digit. */
  predicate Grouped(s: string, sep: char) {
    && s != [] && IsDigit(s[0]) && IsDigit(s[|s| - 1])
    && forall i | 0 <= i < |s| :: IsDigit(s[i]) || s[i] == sep
  }

  /** Numeric text needs no trimming and holds no symbol. */
  lemma CleanNumeric(s: string)
    requires s != [] && Numeric(s)
    ensures CleanAmount(s) == NormalizeSeparators(s)
  {
    assert !IsSpace(s[0]) && !IsSpace(s[|s| - 1]);
    TrimNoSpace(s);
    assert RemoveSymbols(s) == s;
  }

  /** Removing the separator from grouped digits leaves a non-empty run of digits. */
  lemma GroupedDigits(s: string, sep: char)
    requires Grouped(s, sep) && !IsDigit(sep)
    ensures AllDigits(RemoveAll(s, sep)) && RemoveAll(s, sep) != []
  {
    var r := RemoveAll(s, sep);
    forall i | 0 <= i < |r| ensures IsDigit(r[i]) {
      assert r[i] in r;
      assert r[i] in s;
    }
    assert s[0] != sep && s[0] in s;
  }

  /** Replacing the first `,` of `ip,fp` where `ip` holds no comma. */
  lemma ReplaceFirstComma(ip: string, fp: string)
    requires ',' !in ip
    ensures ReplaceFirst(ip + "," + fp, ',', '.') == ip + "." + fp
  {
    var s := ip + "," + fp;
    assert s[..|ip|] == ip;
    IndexOfAt(s, ',', |ip|);
    assert s[|ip| + 1..] == fp;
  }

  /** Only a comma, with exactly two digits after it: the comma is the decimal separator (`3,50` is 3.5). */
  lemma AmountDecimalComma(ip: string, fp: string)
    requires ip != [] && AllDigits(ip) && |fp| == 2 && AllDigits(fp)
    ensures ParseAmount(ip + "," + fp) == Some(DecimalValue(ip, fp))
  {
    var s := ip + "," + fp;
    JoinedNumeric(ip, ',', fp);
    CleanNumeric(s);
    DecimalCommaRewritten(ip, fp);
    AmountOf(s, ip, fp);
  }

  lemma DecimalCommaRewritten(ip: string, fp: string)
    requires ip != [] && AllDigits(ip) && |fp| == 2 && AllDigits(fp)
    ensures NormalizeSeparators(ip + "," + fp) == ip + "." + fp
  {
    var s := ip + "," + fp;
    assert '.' !in s by {
      forall i | 0 <= i < |s| ensures s[i] != '.' {
        if i < |ip| { assert s[i] == ip[i]; } else if i > |ip| { assert s[i] == fp[i - |ip| - 1]; }
      }
    }
    assert s[|ip|] == ',';
    assert EndsCommaTwoDigits(s);
    assert !EndsCommaThreeDigits(s) by {
      if |s| >= 4 { assert s[|s| - 4] == ip[|ip| - 1]; }
    }
    assert ',' !in ip by { assert forall k | 0 <= k < |ip| :: IsDigit(ip[k]); }
    ReplaceFirstComma(ip, fp);
  }

  /** `a`, a separator and `b`, with digits on both sides, is numeric text. */
  lemma JoinedNumeric(a: string, sep: char, b: string)
    requires AllDigits(a) && AllDigits(b) && (sep == ',' || sep == '.')
    ensures Numeric(a + [sep] + b) && a + [sep] + b != []
  {
    var s := a + [sep] + b;
    forall i | 0 <= i < |s| ensures IsDigit(s[i]) || s[i] == ',' || s[i] == '.' {
      if i < |a| { assert s[i] == a[i]; } else if i > |a| { assert s[i] == b[i - |a| - 1]; }
    }
  }

  /** Grouped digits, a separator and digits, is numeric text. */
  lemma GroupedJoinedNumeric(g: string, sep: char, fp: string, gsep: char)
    requires Grouped(g, gsep) && AllDigits(fp) && (sep == ',' || sep == '.') && (gsep == ',' || gsep == '.')
    ensures Numeric(g + [sep] + fp) && g + [sep] + fp != []
  {
    var s := g + [sep] + fp;
    forall i | 0 <= i < |s| ensures IsDigit(s[i]) || s[i] == ',' || s[i] == '.' {
      if i < |g| { assert s[i] == g[i]; } else if i > |g| { assert s[i] == fp[i - |g| - 1]; }
    }
  }

  /** An amount whose cleaned text is a run of digits. */
  lemma IntegerAmountOf(s: string, ds: string)
    requires ds != [] && AllDigits(ds)
    requires CleanAmount(s) == ds
    ensures ParseAmount(s) == Some(DigitsValue(ds) as real)
  {
    ParseFloatInteger(ds);
  }

  /** Only a comma, with three digits after it: the comma groups thousands (`1,000` is 1000). */
  lemma AmountThousandsComma(a: string, b: string)
    requires a != [] && AllDigits(a) && |b| == 3 && AllDigits(b)
    ensures AllDigits(a + b) && ParseAmount(a + "," + b) == Some(DigitsValue(a + b) as real)
  {
    var s := a + "," + b;
    JoinedNumeric(a, ',', b);
    CleanNumeric(s);
    ThousandsCommaRemoved(a, b);
    assert AllDigits(a + b) by {
      forall k | 0 <= k < |a + b| ensures IsDigit((a + b)[k]) {
        if k < |a| { assert (a + b)[k] == a[k]; } else { assert (a + b)[k] == b[k - |a|]; }
      }
    }
    IntegerAmountOf(s, a + b);
  }

  lemma ThousandsCommaRemoved(a: string, b: string)
    requires a != [] && AllDigits(a) && |b| == 3 && AllDigits(b)
    ensures NormalizeSeparators(a + "," + b) == a + b
  {
    var s := a + "," + b;
    assert '.' !in s by {
      forall i | 0 <= i < |s| ensures s[i] != '.' {
        if i < |a| { assert s[i] == a[i]; } else if i > |a| { assert s[i] == b[i - |a| - 1]; }
      }
    }
    assert s[|a|] == ',';
    assert !EndsCommaTwoDigits(s) by { assert s[|s| - 3] == b[0]; }
    assert NormalizeSeparators(s) == RemoveAll(s, ',');
    CommaRemoved(a, b);
  }

  /** Deleting the one comma between two runs of digits joins them. */
  lemma CommaRemoved(a: string, b: string)
    requires AllDigits(a) && AllDigits(b)
    ensures RemoveAll(a + "," + b, ',') == a + b
  {
    assert ',' !in a by { assert forall k | 0 <= k < |a| :: IsDigit(a[k]); }
    assert ',' !in b by { assert forall k | 0 <= k < |b| :: IsDigit(b[k]); }
    RemoveAllAppend(a, ",", ',');
    RemoveAllAbsent(a, ',');
    assert RemoveAll(",", ',') == [];
    var left := RemoveAll(a + ",", ',');
    assert left == a;
    RemoveAllAppend(a + ",", b, ',');
    RemoveAllAbsent(b, ',');
    assert RemoveAll(a + "," + b, ',') == left + b;
  }

  /** Dots and a later comma: the comma is decimal and the dots group thousands (`1.000,50` is 1000.5). */
  lemma AmountCommaDecimalWithDots(g: string, fp: string)
    requires Grouped(g, '.') && '.' in g && fp != [] && AllDigits(fp)
    ensures AllDigits(RemoveAll(g, '.')) && ParseAmount(g + "," + fp) == Some(DecimalValue(RemoveAll(g, '.'), fp))
  {
    var s := g + "," + fp;
    GroupedJoinedNumeric(g, ',', fp, '.');
    CleanNumeric(s);
    GroupedDigits(g, '.');
    CommaDecimalRewritten(g, fp);
    AmountOf(s, RemoveAll(g, '.'), fp);
  }

  lemma CommaDecimalRewritten(g: string, fp: string)
    requires Grouped(g, '.') && '.' in g && fp != [] && AllDigits(fp)
    ensures NormalizeSeparators(g + "," + fp) == RemoveAll(g, '.') + "." + fp
  {
    SeparatorPositions(g, ',', fp, '.');
    assert ',' !in g by { assert forall k | 0 <= k < |g| :: IsDigit(g[k]) || g[k] == '.'; }
    NormalizeCommaLast(g, fp);
    assert '.' !in fp by { assert forall k | 0 <= k < |fp| :: IsDigit(fp[k]); }
    RemoveAllAbsent(fp, '.');
  }

  /** Removing the grouping separator from `g`, `sep`, `fp` only touches `g`; what is left of `g` holds no `sep`. */
  lemma {:induction false} RemoveGrouping(g: string, sep: char, fp: string, gsep: char)
    requires Grouped(g, gsep) && AllDigits(fp) && !IsDigit(sep) && !IsDigit(gsep) && sep != gsep
    ensures RemoveAll(g + [sep] + fp, gsep) == RemoveAll(g, gsep) + [sep] + fp
    ensures sep !in RemoveAll(g, gsep)
  {
    GroupedDigits(g, gsep);
    assert gsep !in fp by { assert forall k | 0 <= k < |fp| :: IsDigit(fp[k]); }
    RemoveAllAppend(g + [sep], fp, gsep);
    RemoveAllAppend(g, [sep], gsep);
    RemoveAllAbsent(fp, gsep);
    var ip := RemoveAll(g, gsep);
    assert sep !in ip by { assert forall k | 0 <= k < |ip| :: IsDigit(ip[k]); }
  }

  /** In `g`, `sep`, `fp` with `g` grouped by `gsep` and `fp` all digits, `sep` is the last separator of all. */
  lemma SeparatorPositions(g: string, sep: char, fp: string, gsep: char)
    requires Grouped(g, gsep) && gsep in g && AllDigits(fp) && !IsDigit(sep) && !IsDigit(gsep) && sep != gsep
    ensures var s := g + [sep] + fp;
      gsep in s && sep in s && LastIndexOf(s, sep) == |g| && LastIndexOf(s, gsep) < |g|
  {
    var s := g + [sep] + fp;
    assert gsep in s by { var k :| 0 <= k < |g| && g[k] == gsep; assert s[k] == gsep; }
    assert s[|g|] == sep;
    forall j | |g| < j < |s| ensures s[j] != sep && s[j] != gsep { assert s[j] == fp[j - |g| - 1]; }
  }

  /**
   * Both separators, the comma last: every dot is dropped and the first comma (only the first,
   * as `.replace(",", ".")` does) becomes the decimal point. The text is written as what precedes
   * its first comma, that comma, and what follows.
   */
  lemma {:induction false} NormalizeCommaLast(p: string, q: string)
    requires ',' !in p
    requires var s := p + [','] + q; '.' in s && LastIndexOf(s, ',') > LastIndexOf(s, '.')
    ensures NormalizeSeparators(p + [','] + q) == RemoveAll(p, '.') + ['.'] + RemoveAll(q, '.')
  {
    var s := p + [','] + q;
    assert ',' in s by { assert s[|p|] == ','; }
    assert NormalizeSeparators(s) == ReplaceFirst(RemoveAll(s, '.'), ',', '.');
    ReplaceAround(p, q, ',', '.', '.');
  }

  /**
   * Both separators, the dot last: the commas, all of them before the last dot, are dropped, and
   * the text from that dot on (the decimal part) is kept as it is.
   */
  lemma {:induction false} NormalizeDotLast(s: string)
    requires '.' in s && ',' in s && LastIndexOf(s, ',') < LastIndexOf(s, '.')
    ensures var k := LastIndexOf(s, '.');
      NormalizeSeparators(s) == RemoveAll(s[..k], ',') + s[k..]
  {
    var k := LastIndexOf(s, '.');
    assert s == s[..k] + s[k..];
    RemoveAllAppend(s[..k], s[k..], ',');
    assert ',' !in s[k..] by {
      forall j | 0 <= j < |s[k..]| ensures s[k..][j] != ',' { assert s[k..][j] == s[k + j]; }
    }
    RemoveAllAbsent(s[k..], ',');
  }

  /** Commas and a later dot: the dot is decimal and the commas group thousands (`1,234.56` is 1234.56). */
  lemma AmountDotDecimalWithCommas(g: string, fp: string)
    requires Grouped(g, ',') && ',' in g && fp != [] && AllDigits(fp)
    ensures AllDigits(RemoveAll(g, ',')) && ParseAmount(g + "." + fp) == Some(DecimalValue(RemoveAll(g, ','), fp))
  {
    var s := g + "." + fp;
    GroupedJoinedNumeric(g, '.', fp, ',');
    CleanNumeric(s);
    GroupedDigits(g, ',');
    DotDecimalRewritten(g, fp);
    AmountOf(s, RemoveAll(g, ','), fp);
  }

  lemma DotDecimalRewritten(g: string, fp: string)
    requires Grouped(g, ',') && ',' in g && fp != [] && AllDigits(fp)
    ensures NormalizeSeparators(g + "." + fp) == RemoveAll(g, ',') + "." + fp
  {
    var s := g + "." + fp;
    SeparatorPositions(g, '.', fp, ',');
    NormalizeDotLast(s);
    RemoveGrouping(g, '.', fp, ',');
  }

  /** Two or more dots and no comma: every dot groups thousands (`1.000.000` is 1000000). */
  lemma AmountManyDots(g: string)
    requires Grouped(g, '.') && Count(g, '.') >= 2
    ensures AllDigits(RemoveAll(g, '.')) && ParseAmount(g) == Some(DigitsValue(RemoveAll(g, '.')) as real)
  {
    assert Numeric(g);
    CleanNumeric(g);
    assert ',' !in g by { assert forall k | 0 <= k < |g| :: g[k] != ','; }
    assert NormalizeSeparators(g) == RemoveAll(g, '.');
    GroupedDigits(g, '.');
    IntegerAmountOf(g, RemoveAll(g, '.'));
  }

  /** A single dot and no comma: the dot is decimal (`3.50` is 3.5, and also `1.000` is 1). */
  lemma AmountSingleDot(ip: string, fp: string)
    requires ip != [] && AllDigits(ip) && fp != [] && AllDigits(fp)
    ensures ParseAmount(ip + "." + fp) == Some(DecimalValue(ip, fp))
  {
    var s := ip + "." + fp;
    JoinedNumeric(ip, '.', fp);
    CleanNumeric(s);
    SingleDotKept(ip, fp);
    AmountOf(s, ip, fp);
  }

  lemma SingleDotKept(ip: string, fp: string)
    requires AllDigits(ip) && AllDigits(fp)
    ensures NormalizeSeparators(ip + "." + fp) == ip + "." + fp
  {
    var s := ip + "." + fp;
    assert ',' !in s by {
      forall i | 0 <= i < |s| ensures s[i] != ',' {
        if i < |ip| { assert s[i] == ip[i]; } else if i > |ip| { assert s[i] == fp[i - |ip| - 1]; }
      }
    }
    assert s[|ip|] == '.';
    assert '.' !in ip by { assert forall k | 0 <= k < |ip| :: IsDigit(ip[k]); }
    assert '.' !in fp by { assert forall k | 0 <= k < |fp| :: IsDigit(fp[k]); }
    CountAppend(ip + ".", fp, '.');
    CountAppend(ip, ".", '.');
    assert Count(".", '.') == 1;
  }

  lemma AmountOf(s: string, ip: string, fp: string)
    requires ip != [] && AllDigits(ip) && AllDigits(fp)
    requires CleanAmount(s) == ip + "." + fp
    ensures ParseAmount(s) == Some(DecimalValue(ip, fp))
  {
    ParseFloatDecimal(ip, fp);
  }

  /** The three amounts worked through in the source's comments. */
  /** `"1,000"` reads as one thousand, not as one. */
  lemma AmountExampleThousandsComma(s: string)
    requires s == "1,000"
    ensures ParseAmount(s) == Some(1000.0)
  {
    assert s == "1" + "," + "000";
    AmountThousandsComma("1", "000");
    Thousand("1" + "000");
  }

  /** A one followed by three zeros. */
  lemma Thousand(t: string)
    requires |t| == 4 && t[0] == '1' && t[1] == '0' && t[2] == '0' && t[3] == '0'
    ensures AllDigits(t) && DigitsValue(t) == 1000
  {
    DigitsAppend(t[..1], t[1..]);
    assert t[..1] + t[1..] == t;
    ZerosValue(t[1..]);
    assert Pow10(3) == 1000;
  }

  lemma {:induction false} ZerosValue(z: string)
    requires forall i | 0 <= i < |z| :: z[i] == '0'
    ensures AllDigits(z) && DigitsValue(z) == 0
  {
    if z != [] {
      ZerosValue(z[..|z| - 1]);
    }
  }

  // ---------------------------------------------------------------------
  // Types and currencies

  /** `parseType`: the English and Spanish names, compared trimmed and lower-cased. */
  function ParseType(value: string): (r: Option<TxType>)
    ensures r.Some? <==> ToLower(Trim(value)) in {"income", "ingreso", "expense", "gasto", "transfer", "transferencia"}
  {
    TypeOfWord(ToLower(Trim(value)))
  }

  /** The type a trimmed, lower-cased word names. */
  function TypeOfWord(v: string): (r: Option<TxType>)
    ensures r.Some? <==> v in {"income", "ingreso", "expense", "gasto", "transfer", "transferencia"}
  {
    if v == "income" || v == "ingreso" then Some(Income)
    else if v == "expense" || v == "gasto" then Some(Expense)
    else if v == "transfer" || v == "transferencia" then Some(Transfer)
    else None
  }

  /** `parseCurrency`: `USD` or `COP`, compared trimmed and upper-cased. */
  function ParseCurrency(value: string): (r: Option<Currency>)
    ensures r.Some? <==> ToUpper(Trim(value)) in {"USD", "COP"}
  {
    var v := ToUpper(Trim(value));
    if v == "USD" then Some(USD) else if v == "COP" then Some(COP) else None
  }

  /** A lower-case ASCII word reads back as itself under trimming and lower-casing. */
  lemma LowerWord(w: string)
    requires w != [] && forall i | 0 <= i < |w| :: 'a' <= w[i] <= 'z'
    ensures ToLower(Trim(w)) == w
  {
    TrimNoSpace(w);
    ToLowerFixed(w);
  }

  /** An upper-case ASCII word reads back as itself under trimming and upper-casing. */
  lemma UpperWord(w: string)
    requires w != [] && forall i | 0 <= i < |w| :: 'A' <= w[i] <= 'Z'
    ensures ToUpper(Trim(w)) == w
  {
    TrimNoSpace(w);
    ToUpperFixed(w);
  }

  /** A value reads as a type exactly by its trimmed, lower-cased spelling. */
  lemma ParseTypeReads(v: string, t: TxType)
    requires ToLower(Trim(v)) == TypeName(t) || ToLower(Trim(v)) == SpanishTypeName(t)
    ensures ParseType(v) == Some(t)
  {
    WordType(ToLower(Trim(v)), t);
  }

  lemma WordType(w: string, t: TxType)
    requires w == TypeName(t) || w == SpanishTypeName(t)
    ensures TypeOfWord(w) == Some(t)
  {
  }

  /** Every stored type name reads back as its type. */
  lemma TypeNamesRoundTrip(t: TxType)
    ensures ParseType(TypeName(t)) == Some(t)
  {
    var w := TypeName(t);
    assert w != [] && forall i | 0 <= i < |w| :: 'a' <= w[i] <= 'z';
    LowerWord(w);
    ParseTypeReads(w, t);
  }

  /** The Spanish names read back as their types. */
  lemma SpanishNamesRoundTrip(t: TxType)
    ensures ParseType(SpanishTypeName(t)) == Some(t)
  {
    var w := SpanishTypeName(t);
    assert w != [] && forall i | 0 <= i < |w| :: 'a' <= w[i] <= 'z';
    LowerWord(w);
    ParseTypeReads(w, t);
  }

  function SpanishTypeName(t: TxType): string {
    match t
    case Income => "ingreso"
    case Expense => "gasto"
    case Transfer => "transferencia"
  }

  /** Every currency code reads back as its currency, and so does its lower-case spelling. */
  lemma CurrencyCodesRoundTrip(c: Currency)
    ensures ParseCurrency(CurrencyCode(c)) == Some(c)
    ensures ParseCurrency(ToLower(CurrencyCode(c))) == Some(c)
  {
    CodeRead(c);
    LowerCodeRead(c);
  }

  lemma CodeRead(c: Currency)
    ensures ParseCurrency(CurrencyCode(c)) == Some(c)
  {
    CodeUpper(c);
    ReadCode(CurrencyCode(c), c);
  }

  lemma CodeUpper(c: Currency)
    ensures ToUpper(Trim(CurrencyCode(c))) == CurrencyCode(c)
  {
    if c == USD {
      UpperWord("USD");
    } else {
      UpperWord("COP");
    }
  }

  /** A value reads as a currency exactly by its trimmed, upper-cased code. */
  lemma ReadCode(v: string, c: Currency)
    requires ToUpper(Trim(v)) == CurrencyCode(c)
    ensures ParseCurrency(v) == Some(c)
  {
  }

  lemma LowerCodeRead(c: Currency)
    ensures ParseCurrency(ToLower(CurrencyCode(c))) == Some(c)
  {
    LowerUpper(c);
    ReadCode(ToLower(CurrencyCode(c)), c);
  }

  lemma LowerUpper(c: Currency)
    ensures ToUpper(Trim(ToLower(CurrencyCode(c)))) == CurrencyCode(c)
  {
    if c == USD {
      CaseRoundTrip("USD", "usd");
    } else {
      CaseRoundTrip("COP", "cop");
    }
  }

  lemma CaseRoundTrip(code: string, lower: string)
    requires ToLower(code) == lower && ToUpper(lower) == code
    requires lower != [] && !IsSpace(lower[0]) && !IsSpace(lower[|lower| - 1])
    ensures ToUpper(Trim(ToLower(code))) == code
  {
    TrimNoSpace(lower);
  }

  // ---------------------------------------------------------------------
  // Rows

  type Row = seq<string>

  /** An account or a category as the importer reads it: an id and a name. */
  datatype Named = Named(id: string, name: string)

  /** `getField`: the trimmed cell of a mapped column that the row has, else the empty text. */
  function GetField(row: Row, col: Option<nat>): (r: string)
    ensures col.None? || col.value >= |row| ==> r == ""
  {
    if col.Some? && col.value < |row| then Trim(row[col.value]) else ""
  }

  function Column(m: ColumnMapping, f: Field): Option<nat> {
    if f in m then Some(m[f]) else None
  }

  /**
   * `new Map(records.map(r => [r.name.toLowerCase(), r.id])).get(key)`: the id of the last
   * record whose lower-cased name is `key` (a later duplicate overwrites an earlier one).
   */
  function LookupLast(records: seq<Named>, key: string): (r: Option<string>)
    ensures r.None? <==> forall k | 0 <= k < |records| :: ToLower(records[k].name) != key
    ensures r.Some? ==> exists k | 0 <= k < |records| ::
      && records[k].id == r.value && ToLower(records[k].name) == key
      && forall j | k < j < |records| :: ToLower(records[j].name) != key
  {
    if records == [] then None
    else
      var last := records[|records| - 1];
      if ToLower(last.name) == key then Some(last.id)
      else
        var r := LookupLast(records[..|records| - 1], key);
        LookupSkipsLast(records, key, r);
        r
  }

  /** A lookup in all but the last record, whose name does not match, answers for all the records. */
  lemma {:induction false} LookupSkipsLast(records: seq<Named>, key: string, r: Option<string>)
    requires records != [] && ToLower(records[|records| - 1].name) != key
    requires var init := records[..|records| - 1];
      && (r.None? <==> forall k | 0 <= k < |init| :: ToLower(init[k].name) != key)
      && (r.Some? ==> exists k | 0 <= k < |init| ::
            && init[k].id == r.value && ToLower(init[k].name) == key
            && forall j | k < j < |init| :: ToLower(init[j].name) != key)
    ensures r.None? <==> forall k | 0 <= k < |records| :: ToLower(records[k].name) != key
    ensures r.Some? ==> exists k | 0 <= k < |records| ::
      && records[k].id == r.value && ToLower(records[k].name) == key
      && forall j | k < j < |records| :: ToLower(records[j].name) != key
  {
    var init := records[..|records| - 1];
    assert forall k | 0 <= k < |init| :: init[k] == records[k];
    if r.Some? {
      var k :| 0 <= k < |init| && init[k].id == r.value && ToLower(init[k].name) == key
        && forall j | k < j < |init| :: ToLower(init[j].name) != key;
      assert forall j | k < j < |records| :: ToLower(records[j].name) != key;
    }
  }

  /** The values used when a column is unmapped or its cell does not parse (`""` is no default). */
  datatype Defaults = Defaults(txType: Option<TxType>, currency: Option<Currency>, accountId: string)

  /** Everything `processCSVRows` reads besides the rows. */
  datatype ImportSetup = ImportSetup(
    mapping: ColumnMapping,
    defaults: Defaults,
    accounts: seq<Named>,
    categories: seq<Named>,
    userId: string,
    overrides: map<string, string>)

  /** Why a row was rejected. */
  datatype RowError =
    | BadDate(raw: string)
    | EmptyDescription
    | BadType
    | BadAmount(raw: string)
    | BadCurrency
    | AccountNotFound(name: string)
    | AccountMissing
    | CategoryNotFound(name: string)

  /** The message reported for a rejected row. */
  function Message(e: RowError): string {
    match e
    case BadDate(raw) => "Fecha invalida: \"" + raw + "\""
    case EmptyDescription => "Descripcion vacia"
    case BadType => "Tipo invalido. Usa: income/expense/transfer"
    case BadAmount(raw) => "Monto invalido: \"" + raw + "\""
    case BadCurrency => "Moneda invalida. Usa: USD o COP"
    case AccountNotFound(name) => "Cuenta no encontrada: \"" + name + "\""
    case AccountMissing => "Cuenta no asignada"
    case CategoryNotFound(name) => "Categoria no encontrada: \"" + name + "\""
  }

  datatype RowResult = Accepted(draft: Draft) | Rejected(error: RowError)

  /** The type of a row: its parsed type cell when the column is mapped and parses, else the default. */
  function ResolvedType(row: Row, s: ImportSetup): (r: Option<TxType>)
    ensures TypeCol in s.mapping && ParseType(GetField(row, Column(s.mapping, TypeCol))).Some? ==>
      r == ParseType(GetField(row, Column(s.mapping, TypeCol)))
    ensures (TypeCol !in s.mapping || ParseType(GetField(row, Column(s.mapping, TypeCol))).None?) ==> r == s.defaults.txType
  {
    var parsed := if TypeCol in s.mapping then ParseType(GetField(row, Column(s.mapping, TypeCol))) else None;
    if parsed.Some? then parsed else s.defaults.txType
  }

  /** The currency of a row: its parsed currency cell when the column is mapped and parses, else the default. */
  function ResolvedCurrency(row: Row, s: ImportSetup): (r: Option<Currency>)
    ensures CurrencyCol in s.mapping && ParseCurrency(GetField(row, Column(s.mapping, CurrencyCol))).Some? ==>
      r == ParseCurrency(GetField(row, Column(s.mapping, CurrencyCol)))
    ensures (CurrencyCol !in s.mapping || ParseCurrency(GetField(row, Column(s.mapping, CurrencyCol))).None?) ==> r == s.defaults.currency
  {
    var parsed := if CurrencyCol in s.mapping then ParseCurrency(GetField(row, Column(s.mapping, CurrencyCol))) else None;
    if parsed.Some? then parsed else s.defaults.currency
  }

  /**
   * The account of a row: with the account column mapped, the (non-empty) id of the account
   * whose name matches the cell case-insensitively, and no fallback; unmapped, the default.
   */
  function ResolvedAccount(row: Row, s: ImportSetup): (r: Option<AccountId>)
    ensures r.Some? ==> r.value != ""
    ensures AccountCol in s.mapping ==>
      (r.Some? <==> exists k | 0 <= k < |s.accounts| :: ToLower(s.accounts[k].name) == ToLower(GetField(row, Column(s.mapping, AccountCol))))
        || LookupLast(s.accounts, ToLower(GetField(row, Column(s.mapping, AccountCol)))) == Some("")
    ensures AccountCol in s.mapping && r.Some? ==>
      Some(r.value) == LookupLast(s.accounts, ToLower(GetField(row, Column(s.mapping, AccountCol))))
    ensures AccountCol !in s.mapping ==> (r.Some? <==> s.defaults.accountId != "") && (r.Some? ==> r.value == s.defaults.accountId)
  {
    if AccountCol in s.mapping then
      var id := LookupLast(s.accounts, ToLower(GetField(row, Column(s.mapping, AccountCol))));
      if id.None? || id.value == "" then None else id
    else if s.defaults.accountId != "" then Some(s.defaults.accountId)
    else None
  }

  /** A non-empty category name is looked up among the categories first, then in the override map. */
  function ResolvedCategory(name: string, s: ImportSetup): (r: Option<CategoryId>)
    ensures r.Some? ==> r.value != ""
    ensures LookupLast(s.categories, ToLower(name)).Some? && LookupLast(s.categories, ToLower(name)).value != "" ==>
      r == LookupLast(s.categories, ToLower(name))
    ensures LookupLast(s.categories, ToLower(name)).None? && ToLower(name) in s.overrides && s.overrides[ToLower(name)] != "" ==>
      r == Some(s.overrides[ToLower(name)])
  {
    var lower := ToLower(name);
    var id := match LookupLast(s.categories, lower)
      case Some(x) => Some(x)
      case None => if lower in s.overrides then Some(s.overrides[lower]) else None;
    if id.None? || id.value == "" then None else id
  }

  /**
   * When the name has no usable id the category is unresolved: neither map holds it, the
   * override holds an empty id, or a category holds it with an empty id (which `??` does not
   * pass over to the overrides, since only a missing key falls through).
   */
  lemma {:induction false} ResolvedCategoryMissing(name: string, s: ImportSetup)
    ensures var found := LookupLast(s.categories, ToLower(name));
      && (found.None? && ToLower(name) !in s.overrides ==> ResolvedCategory(name, s).None?)
      && (found.None? && ToLower(name) in s.overrides && s.overrides[ToLower(name)] == "" ==> ResolvedCategory(name, s).None?)
      && (found == Some("") ==> ResolvedCategory(name, s).None?)
  {
  }

  /**
   * What a row's cells read as under the setup: every parse and lookup the validation
   * consults. The parsers are pure, so reading them all up front changes no outcome.
   */
  datatype Reading = Reading(
    dateRaw: string,
    date: Option<string>,
    description: string,
    txType: Option<TxType>,
    amountRaw: string,
    amount: Option<real>,
    currency: Option<Currency>,
    accountMapped: bool,
    accountName: string,
    account: Option<AccountId>,
    categoryName: string,
    category: Option<CategoryId>,
    merchant: string,
    notes: string)

  function Read(row: Row, s: ImportSetup): Reading {
    var m := s.mapping;
    var categoryName := GetField(row, Column(m, CategoryCol));
    Reading(
      GetField(row, Column(m, DateCol)),
      ParseDate(GetField(row, Column(m, DateCol))),
      GetField(row, Column(m, DescriptionCol)),
      ResolvedType(row, s),
      GetField(row, Column(m, AmountCol)),
      ParseAmount(GetField(row, Column(m, AmountCol))),
      ResolvedCurrency(row, s),
      AccountCol in m,
      GetField(row, Column(m, AccountCol)),
      ResolvedAccount(row, s),
      categoryName,
      ResolvedCategory(categoryName, s),
      GetField(row, Column(m, MerchantCol)),
      GetField(row, Column(m, NotesCol)))
  }

  /** The checks of `processCSVRows`, in the order they run. */
  datatype Check = DateCheck | DescriptionCheck | TypeCheck | AmountCheck | CurrencyCheck | AccountCheck | CategoryCheck

  function Order(c: Check): nat {
    match c
    case DateCheck => 0
    case DescriptionCheck => 1
    case TypeCheck => 2
    case AmountCheck => 3
    case CurrencyCheck => 4
    case AccountCheck => 5
    case CategoryCheck => 6
  }

  /** Whether a reading passes one check, stated on its own. */
  predicate Holds(r: Reading, c: Check) {
    match c
    case DateCheck => r.date.Some?
    case DescriptionCheck => r.description != ""
    case TypeCheck => r.txType.Some?
    case AmountCheck => r.amount.Some? && r.amount.value > 0.0
    case CurrencyCheck => r.currency.Some?
    case AccountCheck => r.account.Some?
    case CategoryCheck => r.categoryName == "" || r.category.Some?
  }

  /** Whether a row passes one check. */
  predicate Passes(row: Row, s: ImportSetup, c: Check) {
    Holds(Read(row, s), c)
  }

  /** The checks in order: the first one that fails rejects the row, else the draft. */
  function Judge(r: Reading, userId: string): RowResult {
    if !Holds(r, DateCheck) then Rejected(BadDate(r.dateRaw))
    else if !Holds(r, DescriptionCheck) then Rejected(EmptyDescription)
    else if !Holds(r, TypeCheck) then Rejected(BadType)
    else if !Holds(r, AmountCheck) then Rejected(BadAmount(r.amountRaw))
    else if !Holds(r, CurrencyCheck) then Rejected(BadCurrency)
    else if !Holds(r, AccountCheck) then
      if r.accountMapped then Rejected(AccountNotFound(r.accountName)) else Rejected(AccountMissing)
    else if !Holds(r, CategoryCheck) then Rejected(CategoryNotFound(r.categoryName))
    else
      Accepted(Draft(userId, r.date.value, r.description, r.txType.value, r.amount.value, r.currency.value,
                     r.account.value, if r.categoryName == "" then None else r.category, None,
                     if r.merchant == "" then None else Some(r.merchant),
                     if r.notes == "" then None else Some(r.notes)))
  }

  /** The validation of one row. */
  function CheckRow(row: Row, s: ImportSetup): RowResult {
    Judge(Read(row, s), s.userId)
  }

  /** The check an error reports. */
  function Failed(e: RowError): Check {
    match e
    case BadDate(_) => DateCheck
    case EmptyDescription => DescriptionCheck
    case BadType => TypeCheck
    case BadAmount(_) => AmountCheck
    case BadCurrency => CurrencyCheck
    case AccountNotFound(_) => AccountCheck
    case AccountMissing => AccountCheck
    case CategoryNotFound(_) => CategoryCheck
  }

  /**
   * A row is accepted exactly when it passes every check; a rejected row reports the first
   * check it fails, having passed all the earlier ones.
   */
  lemma CheckRowFirstFailure(row: Row, s: ImportSetup)
    ensures CheckRow(row, s).Accepted? <==> forall c :: Passes(row, s, c)
    ensures CheckRow(row, s).Rejected? ==>
      var e := CheckRow(row, s).error;
      && !Passes(row, s, Failed(e))
      && forall c | Order(c) < Order(Failed(e)) :: Passes(row, s, c)
  {
    var r := Read(row, s);
    JudgeFirstFailure(r, s.userId);
    assert CheckRow(row, s) == Judge(r, s.userId);
    assert forall c :: Passes(row, s, c) == Holds(r, c);
  }

  lemma JudgeFirstFailure(r: Reading, userId: string)
    ensures Judge(r, userId).Accepted? <==> forall c :: Holds(r, c)
    ensures Judge(r, userId).Rejected? ==>
      var e := Judge(r, userId).error;
      && !Holds(r, Failed(e))
      && forall c | Order(c) < Order(Failed(e)) :: Holds(r, c)
  {
    if Judge(r, userId).Accepted? {
      forall c ensures Holds(r, c) {
        match c
        case DateCheck =>
        case DescriptionCheck =>
        case TypeCheck =>
        case AmountCheck =>
        case CurrencyCheck =>
        case AccountCheck =>
        case CategoryCheck =>
      }
    }
  }

  /** The fields of an accepted row's draft. */
  lemma AcceptedDraft(row: Row, s: ImportSetup)
    requires CheckRow(row, s).Accepted?
    ensures var d := CheckRow(row, s).draft;
      var m := s.mapping;
      && Some(d.date) == ParseDate(GetField(row, Column(m, DateCol)))
      && d.description == GetField(row, Column(m, DescriptionCol))
      && Some(d.txType) == ResolvedType(row, s)
      && d.amount > 0.0 && Some(d.amount) == ParseAmount(GetField(row, Column(m, AmountCol)))
      && Some(d.currency) == ResolvedCurrency(row, s)
      && Some(d.accountId) == ResolvedAccount(row, s)
      && (d.categoryId.None? <==> GetField(row, Column(m, CategoryCol)) == "")
      && d.userId == s.userId && d.budgetId.None?
      && (d.merchant.None? <==> GetField(row, Column(m, MerchantCol)) == "")
      && (d.notes.None? <==> GetField(row, Column(m, NotesCol)) == "")
  {
    var r := Read(row, s);
    assert CheckRow(row, s) == Judge(r, s.userId);
    ReadFields(row, s);
    JudgeAccepted(r, s.userId);
  }

  /**
   * The optional fields of an accepted row's draft: the category id is the one the lookup
   * resolves for a non-empty category cell, and the merchant and notes are their trimmed cells.
   */
  lemma {:induction false} AcceptedDraftOptional(row: Row, s: ImportSetup, d: Draft)
    requires CheckRow(row, s) == Accepted(d)
    ensures var name := GetField(row, Column(s.mapping, CategoryCol));
      d.categoryId == (if name == "" then None else ResolvedCategory(name, s))
    ensures d.merchant.Some? ==> d.merchant.value == GetField(row, Column(s.mapping, MerchantCol))
    ensures d.notes.Some? ==> d.notes.value == GetField(row, Column(s.mapping, NotesCol))
  {
    ReadFields(row, s);
    JudgeOptional(Read(row, s), s.userId, d);
  }

  /** The optional fields of an accepted draft, read off the reading it was built from. */
  lemma {:induction false} JudgeOptional(r: Reading, userId: string, d: Draft)
    requires Judge(r, userId) == Accepted(d)
    ensures d.categoryId == (if r.categoryName == "" then None else r.category)
    ensures d.merchant.Some? ==> d.merchant.value == r.merchant
    ensures d.notes.Some? ==> d.notes.value == r.notes
  {
    JudgeAccepted(r, userId);
  }



  /** What each field of a reading holds. */
  lemma {:induction false} ReadFields(row: Row, s: ImportSetup)
    ensures var r := Read(row, s); var m := s.mapping;
      && r.date == ParseDate(GetField(row, Column(m, DateCol)))
      && r.description == GetField(row, Column(m, DescriptionCol))
      && r.txType == ResolvedType(row, s)
      && r.amount == ParseAmount(GetField(row, Column(m, AmountCol)))
      && r.currency == ResolvedCurrency(row, s)
      && r.account == ResolvedAccount(row, s)
      && r.categoryName == GetField(row, Column(m, CategoryCol))
      && r.category == ResolvedCategory(GetField(row, Column(m, CategoryCol)), s)
      && r.merchant == GetField(row, Column(m, MerchantCol))
      && r.notes == GetField(row, Column(m, NotesCol))
  {
  }

  lemma JudgeAccepted(r: Reading, userId: string)
    requires Judge(r, userId).Accepted?
    ensures var d := Judge(r, userId).draft;
      && r.date == Some(d.date) && r.description == d.description && r.txType == Some(d.txType)
      && d.amount > 0.0 && r.amount == Some(d.amount) && r.currency == Some(d.currency)
      && r.account == Some(d.accountId)
      && (d.categoryId.None? <==> r.categoryName == "")
      && d.categoryId == (if r.categoryName == "" then None else r.category)
      && d.userId == userId && d.budgetId.None?
      && (d.merchant.None? <==> r.merchant == "")
      && (d.merchant.Some? ==> d.merchant.value == r.merchant)
      && (d.notes.None? <==> r.notes == "")
      && (d.notes.Some? ==> d.notes.value == r.notes)
  {
  }

  /** A mapped account name that matches no account is reported as not found, never replaced by the default. */
  lemma MappedAccountNoFallback(row: Row, s: ImportSetup)
    requires AccountCol in s.mapping
    requires forall c | Order(c) < Order(AccountCheck) :: Passes(row, s, c)
    requires LookupLast(s.accounts, ToLower(GetField(row, Column(s.mapping, AccountCol)))).None?
    ensures CheckRow(row, s) == Rejected(AccountNotFound(GetField(row, Column(s.mapping, AccountCol))))
  {
    var r := Read(row, s);
    assert CheckRow(row, s) == Judge(r, s.userId);
    assert forall c :: Passes(row, s, c) == Holds(r, c);
    assert r.account.None? && r.accountMapped;
    JudgeAccountNotFound(r, s.userId);
  }

  lemma JudgeAccountNotFound(r: Reading, userId: string)
    requires forall c | Order(c) < Order(AccountCheck) :: Holds(r, c)
    requires r.account.None? && r.accountMapped
    ensures Judge(r, userId) == Rejected(AccountNotFound(r.accountName))
  {
    assert Holds(r, DateCheck) && Holds(r, DescriptionCheck) && Holds(r, TypeCheck);
    assert Holds(r, AmountCheck) && Holds(r, CurrencyCheck);
  }

  /** An import error: the row number and the message. */
  datatype ImportError = ImportError(row: int, message: string)

  /** The validation of every row, in order. */
  function Results(rows: seq<Row>, s: ImportSetup): seq<RowResult> {
    Checked(rows, row => CheckRow(row, s))
  }

  /** The result of `check` on every row, in order. */
  function Checked(rows: seq<Row>, check: Row -> RowResult): (rs: seq<RowResult>)
    ensures |rs| == |rows| && forall i | 0 <= i < |rows| :: rs[i] == check(rows[i])
  {
    seq(|rows|, i requires 0 <= i < |rows| => check(rows[i]))
  }

  /** The drafts of the accepted rows, in input order. */
  function AcceptedOf(rs: seq<RowResult>): seq<Draft> {
    if rs == [] then []
    else AcceptedOf(rs[..|rs| - 1]) + if rs[|rs| - 1].Accepted? then [rs[|rs| - 1].draft] else []
  }

  /** The errors of the rejected rows, numbered from 2 (row 1 is the header), in input order. */
  function ErrorsOf(rs: seq<RowResult>): seq<ImportError> {
    if rs == [] then []
    else
      ErrorsOf(rs[..|rs| - 1])
        + if rs[|rs| - 1].Rejected? then [ImportError(|rs| + 1, Message(rs[|rs| - 1].error))] else []
  }

  /** `processCSVRows`: one pass over the rows, each pushed to the drafts or to the errors. */
  method ProcessCsvRows(rows: seq<Row>, s: ImportSetup) returns (valid: seq<Draft>, errors: seq<ImportError>)
    ensures valid == AcceptedOf(Results(rows, s))
    ensures errors == ErrorsOf(Results(rows, s))
    ensures |valid| + |errors| == |rows|
  {
    valid, errors := SortRows(rows, row => CheckRow(row, s));
  }

  /** The loop of `processCSVRows`, for any validation `check` of a row. */
  method SortRows(rows: seq<Row>, check: Row -> RowResult) returns (valid: seq<Draft>, errors: seq<ImportError>)
    ensures valid == AcceptedOf(Checked(rows, check))
    ensures errors == ErrorsOf(Checked(rows, check))
    ensures |valid| + |errors| == |rows|
  {
    valid := [];
    errors := [];
    ghost var done: seq<RowResult> := [];
    for i := 0 to |rows|
      invariant |done| == i && forall k | 0 <= k < i :: done[k] == check(rows[k])
      invariant valid == AcceptedOf(done)
      invariant errors == ErrorsOf(done)
    {
      var v := check(rows[i]);
      assert (done + [v])[..i] == done;
      match v {
        case Accepted(d) =>
          valid := valid + [d];
        case Rejected(e) =>
          errors := errors + [ImportError(i + 2, Message(e))];
      }
      done := done + [v];
    }
    assert done == Checked(rows, check);
    PartitionCount(done);
  }

  /** Every row goes to exactly one of the two lists. */
  lemma {:induction false} PartitionCount(rs: seq<RowResult>)
    ensures |AcceptedOf(rs)| + |ErrorsOf(rs)| == |rs|
  {
    if rs != [] {
      PartitionCount(rs[..|rs| - 1]);
    }
  }

  /**
   * The error list names rejected rows only, by index plus 2, with the message of the
   * first check the row fails.
   */
  lemma {:induction false} ErrorsNameRejected(rs: seq<RowResult>)
    ensures forall k | 0 <= k < |ErrorsOf(rs)| ::
      && 2 <= ErrorsOf(rs)[k].row < |rs| + 2
      && rs[ErrorsOf(rs)[k].row - 2].Rejected?
      && ErrorsOf(rs)[k].message == Message(rs[ErrorsOf(rs)[k].row - 2].error)
  {
    if rs != [] {
      var init := rs[..|rs| - 1];
      ErrorsNameRejected(init);
      var errs, prev := ErrorsOf(rs), ErrorsOf(init);
      var last := rs[|rs| - 1];
      assert errs == prev + if last.Rejected? then [ImportError(|rs| + 1, Message(last.error))] else [];
      forall k | 0 <= k < |errs|
        ensures 2 <= errs[k].row < |rs| + 2 && rs[errs[k].row - 2].Rejected?
        ensures errs[k].message == Message(rs[errs[k].row - 2].error)
      {
        if k < |prev| {
          assert errs[k] == prev[k];
          assert init[prev[k].row - 2] == rs[prev[k].row - 2];
        }
      }
    }
  }

  /** Error rows increase strictly, so no row is named twice. */
  lemma {:induction false} ErrorsIncreasing(rs: seq<RowResult>)
    ensures forall k | 0 <= k < |ErrorsOf(rs)| :: 2 <= ErrorsOf(rs)[k].row <= |rs| + 1
    ensures forall k, l | 0 <= k < l < |ErrorsOf(rs)| :: ErrorsOf(rs)[k].row < ErrorsOf(rs)[l].row
  {
    if rs != [] {
      var init := rs[..|rs| - 1];
      ErrorsIncreasing(init);
      var errs, prev := ErrorsOf(rs), ErrorsOf(init);
      var last := rs[|rs| - 1];
      assert errs == prev + if last.Rejected? then [ImportError(|rs| + 1, Message(last.error))] else [];
      forall k | 0 <= k < |errs| ensures 2 <= errs[k].row <= |rs| + 1 {
        if k < |prev| {
          assert errs[k] == prev[k];
        }
      }
      forall k, l | 0 <= k < l < |errs| ensures errs[k].row < errs[l].row {
        assert errs[k] == prev[k];
        if l < |prev| {
          assert errs[l] == prev[l];
        }
      }
    }
  }

  /** Every rejected row is named, with its message. */
  lemma {:induction false} ErrorsComplete(rs: seq<RowResult>)
    ensures forall i | 0 <= i < |rs| && rs[i].Rejected? :: ImportError(i + 2, Message(rs[i].error)) in ErrorsOf(rs)
  {
    if rs != [] {
      var init := rs[..|rs| - 1];
      ErrorsComplete(init);
      var last := rs[|rs| - 1];
      assert ErrorsOf(rs) == ErrorsOf(init) + if last.Rejected? then [ImportError(|rs| + 1, Message(last.error))] else [];
      assert forall i | 0 <= i < |init| :: init[i] == rs[i];
    }
  }

  /** The drafts are those of the accepted rows, in order: row `i`'s draft, if any, precedes row `j`'s for `i < j`. */
  lemma {:induction false} AcceptedRows(rs: seq<RowResult>)
    ensures forall d :: d in AcceptedOf(rs) <==> exists i | 0 <= i < |rs| :: rs[i] == Accepted(d)
  {
    if rs != [] {
      var init := rs[..|rs| - 1];
      AcceptedRows(init);
      assert forall i | 0 <= i < |init| :: init[i] == rs[i];
    }
  }

  // ---------------------------------------------------------------------
  // Unknown categories

  /** The lower-cased names of the known categories. */
  function KnownNames(categories: seq<Named>): set<string> {
    set k | 0 <= k < |categories| :: ToLower(categories[k].name)
  }

  /** Whether the cell text names an unknown category. */
  predicate IsUnknownName(name: string, known: set<string>) {
    name != "" && ToLower(name) !in known
  }

  /** The trimmed cells of column `col`, one per row. */
  function Cells(rows: seq<Row>, col: nat): (cells: seq<string>)
    ensures |cells| == |rows|
  {
    seq(|rows|, k requires 0 <= k < |rows| => GetField(rows[k], Some(col)))
  }

  /** The distinct unknown names among `cells`, in order of first appearance (a `Set`'s insertion order). */
  function UnknownNames(cells: seq<string>, known: set<string>): (names: seq<string>)
    ensures forall i, j | 0 <= i < j < |names| :: names[i] != names[j]
    ensures forall x :: x in names <==> x in cells && IsUnknownName(x, known)
  {
    if cells == [] then []
    else
      var init := cells[..|cells| - 1];
      var prev := UnknownNames(init, known);
      var name := cells[|cells| - 1];
      assert cells == init + [name];
      if IsUnknownName(name, known) && name !in prev then prev + [name] else prev
  }

  lemma UnknownNamesStep(cells: seq<string>, k: nat, known: set<string>)
    requires k < |cells|
    ensures var prev := UnknownNames(cells[..k], known);
      UnknownNames(cells[..k + 1], known) == if IsUnknownName(cells[k], known) && cells[k] !in prev then prev + [cells[k]] else prev
  {
    assert cells[..k + 1][..k] == cells[..k];
  }

  /**
   * `findUnknownCategories`: nothing when the category column is unmapped; otherwise the
   * unknown names, sorted and without duplicates.
   */
  method FindUnknownCategories(rows: seq<Row>, mapping: ColumnMapping, categories: seq<Named>) returns (names: seq<string>)
    ensures CategoryCol !in mapping ==> names == []
    ensures CategoryCol in mapping ==> names == SortStrings(UnknownNames(Cells(rows, mapping[CategoryCol]), KnownNames(categories)))
    ensures SortedBy(names, Identity)
    ensures forall i, j | 0 <= i < j < |names| :: names[i] != names[j]
    ensures CategoryCol in mapping ==> forall x :: x in names <==>
      x in Cells(rows, mapping[CategoryCol]) && IsUnknownName(x, KnownNames(categories))
  {
    if CategoryCol !in mapping {
      return [];
    }
    var unknown := CollectUnknown(rows, mapping[CategoryCol], KnownNames(categories));
    names := SortStrings(unknown);
    SortedDistinct(unknown, names);
    assert forall x :: x in names <==> x in multiset(unknown);
  }

  /** The loop of `findUnknownCategories`: each non-empty unknown name added to a set once. */
  method CollectUnknown(rows: seq<Row>, col: nat, known: set<string>) returns (unknown: seq<string>)
    ensures unknown == UnknownNames(Cells(rows, col), known)
  {
    ghost var cells := Cells(rows, col);
    unknown := [];
    for k := 0 to |rows|
      invariant unknown == UnknownNames(cells[..k], known)
    {
      var name := GetField(rows[k], Some(col));
      assert name == cells[k];
      UnknownNamesStep(cells, k, known);
      if name != "" && ToLower(name) !in known && name !in unknown {
        unknown := unknown + [name];
      }
    }
    assert cells[..|rows|] == cells;
  }

  // ---------------------------------------------------------------------
  // Sequential import

  /** Whether the commit of a draft with no items succeeds under the store's answer. */
  predicate Commits(fault: Transactions.StoreFault) {
    !fault.RecordWriteFails?
  }

  /** The drafts that are committed, in order. */
  function CommittedDrafts(drafts: seq<Draft>, faults: seq<Transactions.StoreFault>): seq<Draft>
    requires |faults| == |drafts|
  {
    if drafts == [] then []
    else
      var n := |drafts| - 1;
      CommittedDrafts(drafts[..n], faults[..n]) + (if Commits(faults[n]) then [drafts[n]] else [])
  }

  /** The commit errors, numbered from 1 by position among the drafts. */
  function CommitErrors(drafts: seq<Draft>, faults: seq<Transactions.StoreFault>): seq<ImportError>
    requires |faults| == |drafts|
  {
    if drafts == [] then []
    else
      var n := |drafts| - 1;
      CommitErrors(drafts[..n], faults[..n]) + (if Commits(faults[n]) then [] else [ImportError(n + 1, faults[n].message)])
  }

  /** Every draft is either committed or reported, once. */
  lemma {:induction false} CommitPartition(drafts: seq<Draft>, faults: seq<Transactions.StoreFault>)
    requires |faults| == |drafts|
    ensures |CommittedDrafts(drafts, faults)| + |CommitErrors(drafts, faults)| == |drafts|
  {
    if drafts != [] {
      CommitPartition(drafts[..|drafts| - 1], faults[..|drafts| - 1]);
    }
  }

  /** The commit errors name failed drafts by position + 1, with the store's message, in increasing order. */
  lemma {:induction false} CommitErrorRows(drafts: seq<Draft>, faults: seq<Transactions.StoreFault>)
    requires |faults| == |drafts|
    ensures forall k | 0 <= k < |CommitErrors(drafts, faults)| ::
      && 1 <= CommitErrors(drafts, faults)[k].row <= |drafts|
      && !Commits(faults[CommitErrors(drafts, faults)[k].row - 1])
      && CommitErrors(drafts, faults)[k].message == faults[CommitErrors(drafts, faults)[k].row - 1].message
    ensures forall k, l | 0 <= k < l < |CommitErrors(drafts, faults)| ::
      CommitErrors(drafts, faults)[k].row < CommitErrors(drafts, faults)[l].row
  {
    if drafts != [] {
      var n := |drafts| - 1;
      CommitErrorRows(drafts[..n], faults[..n]);
      var errs, prev := CommitErrors(drafts, faults), CommitErrors(drafts[..n], faults[..n]);
      assert errs == prev + if Commits(faults[n]) then [] else [ImportError(n + 1, faults[n].message)];
      forall k | 0 <= k < |errs|
        ensures 1 <= errs[k].row <= |drafts| && !Commits(faults[errs[k].row - 1])
        ensures errs[k].message == faults[errs[k].row - 1].message
      {
        if k < |prev| {
          assert errs[k] == prev[k];
          assert faults[..n][prev[k].row - 1] == faults[prev[k].row - 1];
        }
      }
      forall k, l | 0 <= k < l < |errs| ensures errs[k].row < errs[l].row {
        assert errs[k] == prev[k];
        if l < |prev| {
          assert errs[l] == prev[l];
        }
      }
    }
  }

  /** One more draft: the committed drafts and the errors each grow by what its commit gives. */
  lemma CommitStep(drafts: seq<Draft>, faults: seq<Transactions.StoreFault>)
    requires |faults| == |drafts| && drafts != []
    ensures var n := |drafts| - 1;
      && CommittedDrafts(drafts, faults) == CommittedDrafts(drafts[..n], faults[..n]) + (if Commits(faults[n]) then [drafts[n]] else [])
      && CommitErrors(drafts, faults) == CommitErrors(drafts[..n], faults[..n]) + (if Commits(faults[n]) then [] else [ImportError(n + 1, faults[n].message)])
  {
  }

  /** The fields of a run of entries. */
  function Fields(es: seq<Entry>): seq<Draft> {
    seq(|es|, k requires 0 <= k < |es| => es[k].data)
  }

  /**
   * `importTransactions`: commits the drafts strictly in order through `createTransaction`;
   * a failure is recorded with row `i + 1` and the loop goes on; progress `(i + 1, n)` is
   * reported after every attempt. `faults[i]` is the store's answer to the i-th commit.
   */
  method ImportTransactions(ledger: Transactions.Ledger, drafts: seq<Draft>, faults: seq<Transactions.StoreFault>)
    returns (imported: nat, errors: seq<ImportError>, progress: seq<(nat, nat)>)
    requires ledger.Valid() && |faults| == |drafts|
    modifies ledger
    ensures ledger.Valid()
    ensures imported + |errors| == |drafts|
    ensures errors == CommitErrors(drafts, faults)
    ensures |progress| == |drafts| && forall k | 0 <= k < |drafts| :: progress[k] == (k + 1, |drafts|)
    ensures |ledger.entries| == |old(ledger.entries)| + imported
    ensures ledger.entries[..|old(ledger.entries)|] == old(ledger.entries)
    ensures Fields(ledger.entries[|old(ledger.entries)|..]) == CommittedDrafts(drafts, faults)
  {
    imported := 0;
    errors := [];
    progress := [];
    ghost var before := ledger.entries;
    ghost var added: seq<Entry> := [];
    for i := 0 to |drafts|
      invariant ledger.Valid()
      invariant ledger.entries == before + added
      invariant Fields(added) == CommittedDrafts(drafts[..i], faults[..i])
      invariant errors == CommitErrors(drafts[..i], faults[..i])
      invariant imported == |added| && imported + |errors| == i
      invariant |progress| == i && forall k | 0 <= k < i :: progress[k] == (k + 1, |drafts|)
    {
      var r;
      r, added := CommitNext(ledger, drafts, faults, i, before, added);
      if r.Success? {
        imported := imported + 1;
      } else {
        errors := errors + [ImportError(i + 1, r.error)];
      }
      progress := progress + [(i + 1, |drafts|)];
    }
    assert drafts[..|drafts|] == drafts && faults[..|faults|] == faults;
  }

  /** One turn of the import loop: the commit of `drafts[i]`, and what it adds to the store and to the errors. */
  method CommitNext(ledger: Transactions.Ledger, drafts: seq<Draft>, faults: seq<Transactions.StoreFault>, i: nat,
                    ghost before: seq<Entry>, ghost added: seq<Entry>)
    returns (r: Result<EntryId>, ghost added1: seq<Entry>)
    requires ledger.Valid() && |faults| == |drafts| && i < |drafts|
    requires ledger.entries == before + added
    requires Fields(added) == CommittedDrafts(drafts[..i], faults[..i])
    modifies ledger
    ensures ledger.Valid() && ledger.entries == before + added1
    ensures Fields(added1) == CommittedDrafts(drafts[..i + 1], faults[..i + 1])
    ensures CommitErrors(drafts[..i + 1], faults[..i + 1])
      == CommitErrors(drafts[..i], faults[..i]) + (if r.Success? then [] else [ImportError(i + 1, r.error)])
    ensures r.Success? ==> |added1| == |added| + 1
    ensures r.Failure? ==> added1 == added
  {
    CommitStep(drafts[..i + 1], faults[..i + 1]);
    assert drafts[..i + 1][..i] == drafts[..i] && faults[..i + 1][..i] == faults[..i];
    r := ledger.CreateTransaction(drafts[i], [], faults[i], false);
    if r.Success? {
      var e := ledger.entries[|ledger.entries| - 1];
      FieldsSnoc(added, e);
      added1 := added + [e];
    } else {
      added1 := added;
    }
  }

  lemma FieldsSnoc(es: seq<Entry>, e: Entry)
    ensures Fields(es + [e]) == Fields(es) + [e.data]
  {
  }
}
