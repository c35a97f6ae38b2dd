/**
 * The money text field: it accepts keystrokes that keep the text a plausible
 * amount (digits, thousands commas, one dot with at most two decimals, a
 * minus), shows the accepted text and reports the number it denotes.
 *
 * Locale formatting of non-zero values (`toLocaleString`) is a parameter;
 * focus and blur handling are not part of this model.
 */
module CurrencyInput {
  import opened Wrappers
  import opened Text
  import opened Numbers

  /** `formatDisplay`: zero shows as an empty field; other values go through the locale formatter. */
  function FormatDisplay(value: real, localeFormat: real -> string): (s: string)
    ensures value == 0.0 ==> s == ""
    ensures value != 0.0 ==> s == localeFormat(value)
  {
    if value == 0.0 then "" else localeFormat(value)
  }

  /** `parseInput`: the number the text denotes once its commas are dropped, 0 when nothing parses. */
  function ParseInput(raw: string): (v: real)
    ensures ParseFloat(RemoveAll(raw, ',')).None? ==> v == 0.0
    ensures ParseFloat(RemoveAll(raw, ',')).Some? ==> v == ParseFloat(RemoveAll(raw, ',')).value
  {
    match ParseFloat(RemoveAll(raw, ','))
    case None => 0.0
    case Some(x) => x
  }

  /** The characters the field lets through: `[\d,.\-]`. */
  predicate Allowed(c: char) {
    IsDigit(c) || c == ',' || c == '.' || c == '-'
  }

  /** The guard checks of `handleChange` for a non-empty text: allowed characters, one dot at most, two decimals at most. */
  predicate Accepts(raw: string) {
    && (forall i | 0 <= i < |raw| :: Allowed(raw[i]))
    && Count(raw, '.') <= 1
    && (IndexOf(raw, '.') == -1 || |raw| - IndexOf(raw, '.') <= 3)
  }

  /** The field's state and what it has reported to its owner through `onChange`, oldest first. */
  class CurrencyField {
    var displayValue: string
    var emitted: seq<real>

    /** The initial state for an external `value`. */
    constructor (value: real, localeFormat: real -> string)
      ensures displayValue == (if value != 0.0 then FormatDisplay(value, localeFormat) else "")
      ensures emitted == []
    {
      displayValue := if value != 0.0 then FormatDisplay(value, localeFormat) else "";
      emitted := [];
    }

    /**
     * `handleChange`: an empty text clears the field and reports 0; a text the
     * guards accept is shown and its number reported; any other keystroke is
     * dropped, leaving the field and the reports as they were.
     */
    method HandleChange(raw: string)
      modifies this
      ensures raw == "" ==> displayValue == "" && emitted == old(emitted) + [0.0]
      ensures raw != "" && Accepts(raw) ==> displayValue == raw && emitted == old(emitted) + [ParseInput(raw)]
      ensures raw != "" && !Accepts(raw) ==> displayValue == old(displayValue) && emitted == old(emitted)
    {
      if raw == "" {
        displayValue := "";
        emitted := emitted + [0.0];
        return;
      }
      var i := 0;
      while i < |raw|
        invariant 0 <= i <= |raw|
        invariant forall j | 0 <= j < i :: Allowed(raw[j])
      {
        if !Allowed(raw[i]) {
          return;
        }
        i := i + 1;
      }
      if Count(raw, '.') > 1 {
        return;
      }
      var dotIndex := IndexOf(raw, '.');
      if dotIndex != -1 && |raw| - dotIndex > 3 {
        return;
      }
      displayValue := raw;
      emitted := emitted + [ParseInput(raw)];
    }
  }

  // ---------------------------------------------------------------------
  // What the guards let through

  /**
   * The guards, read as a shape: every character is allowed, no two dots, and
   * at most two characters after a dot.
   */
  lemma AcceptsMeaning(raw: string)
    ensures Accepts(raw) <==>
      && (forall i | 0 <= i < |raw| :: Allowed(raw[i]))
      && (forall i, j | 0 <= i < j < |raw| && raw[i] == '.' :: raw[j] != '.')
      && (forall i | 0 <= i < |raw| && raw[i] == '.' :: |raw| - i <= 3)
  {
    OneDotAtMost(raw, '.');
  }

  /** `c` occurs at most once exactly when no two positions hold it. */
  lemma {:induction false} OneDotAtMost(s: string, c: char)
    ensures Count(s, c) <= 1 <==> forall i, j | 0 <= i < j < |s| && s[i] == c :: s[j] != c
  {
    if s != [] {
      OneDotAtMost(s[1..], c);
      if s[0] == c && Count(s[1..], c) > 0 {
        var j := IndexOf(s[1..], c);
        assert s[j + 1] == c;
      }
      if s[0] == c && Count(s[1..], c) == 0 {
        forall i, j | 0 <= i < j < |s| && s[i] == c ensures s[j] != c {
          assert s[j] == s[1..][j - 1];
        }
      }
      forall i, j | 1 <= i < j < |s| && s[i] == c ensures (forall i', j' | 0 <= i' < j' < |s[1..]| && s[1..][i'] == c :: s[1..][j'] != c) ==> s[j] != c {
        assert s[1..][i - 1] == c;
      }
    }
  }

  /** The field accepts whole numbers written with thousands commas, and plain decimals with up to two places. */
  lemma AcceptsAmounts(ds: string, fp: string)
    requires forall i | 0 <= i < |ds| :: IsDigit(ds[i]) || ds[i] == ','
    requires AllDigits(fp) && |fp| <= 2
    ensures Accepts(ds)
    ensures Accepts(ds + "." + fp)
  {
    var s := ds + "." + fp;
    assert forall i | 0 <= i < |s| :: Allowed(s[i]) by {
      forall i | 0 <= i < |s| ensures Allowed(s[i]) {
        if i > |ds| {
          assert s[i] == fp[i - |ds| - 1];
        }
      }
    }
    AcceptsMeaning(ds);
    AcceptsMeaning(s);
  }

  // ---------------------------------------------------------------------
  // What the field reports

  /** Dropping the commas of digits and commas leaves digits. */
  lemma {:induction false} GroupedDigits(ds: string)
    requires forall i | 0 <= i < |ds| :: IsDigit(ds[i]) || ds[i] == ','
    ensures AllDigits(RemoveAll(ds, ','))
  {
    if ds != [] {
      GroupedDigits(ds[1..]);
    }
  }

  lemma CommasDropped(ds: string, fp: string)
    requires AllDigits(fp)
    ensures RemoveAll(ds + "." + fp, ',') == RemoveAll(ds, ',') + "." + fp
  {
    assert ',' !in fp by { assert forall k | 0 <= k < |fp| :: IsDigit(fp[k]); }
    RemoveAllAppend(ds + ".", fp, ',');
    RemoveAllAppend(ds, ".", ',');
    RemoveAllAbsent(fp, ',');
    RemoveAllAbsent(".", ',');
  }

  /**
   * An amount typed with thousands commas reports the number its digits spell:
   * `1,234.5` reports 1234.5.
   */
  lemma ParseInputGrouped(ds: string, fp: string)
    requires forall i | 0 <= i < |ds| :: IsDigit(ds[i]) || ds[i] == ','
    requires RemoveAll(ds, ',') != [] && AllDigits(fp)
    ensures AllDigits(RemoveAll(ds, ','))
    ensures ParseInput(ds + "." + fp) == DecimalValue(RemoveAll(ds, ','), fp)
  {
    GroupedDigits(ds);
    CommasDropped(ds, fp);
    ParseFloatDecimal(RemoveAll(ds, ','), fp);
  }

  /** Dropping the commas of commas and minus signs leaves minus signs. */
  lemma {:induction false} OnlyMinus(raw: string)
    requires forall i | 0 <= i < |raw| :: raw[i] == ',' || raw[i] == '-'
    ensures forall i | 0 <= i < |RemoveAll(raw, ',')| :: RemoveAll(raw, ',')[i] == '-'
  {
    if raw != [] {
      OnlyMinus(raw[1..]);
    }
  }

  /** Text with nothing to parse, such as a lone `-` or `,`, reports 0. */
  lemma ParseInputNothing(raw: string)
    requires forall i | 0 <= i < |raw| :: raw[i] == ',' || raw[i] == '-'
    ensures ParseInput(raw) == 0.0
  {
    var r := RemoveAll(raw, ',');
    OnlyMinus(raw);
    if r != [] {
      assert TrimStart(r) == r;
    }
  }
}
