/**
 * JavaScript's `parseFloat` over the decimal notation the application feeds it:
 * leading white space, an optional sign, digits, and an optional `.` with
 * more digits; the longest such prefix is read and the rest ignored.
 * Numbers are exact (`real`), not IEEE doubles.
 */
module Numbers {
  import opened Wrappers
  import opened Text

  function Pow10(n: nat): (p: nat)
    ensures p >= 1
  {
    if n == 0 then 1 else 10 * Pow10(n - 1)
  }

  /** Length of the run of ASCII digits that starts `s`. */
  function DigitRun(s: string): (n: nat)
    ensures n <= |s| && AllDigits(s[..n])
    ensures n < |s| ==> !IsDigit(s[n])
  {
    if s != [] && IsDigit(s[0]) then
      var n := 1 + DigitRun(s[1..]);
      assert s[..n] == [s[0]] + s[1..][..n - 1];
      n
    else 0
  }

  /** The number a string of decimal digits denotes. */
  function DigitsValue(ds: string): nat
    requires AllDigits(ds)
  {
    if ds == [] then 0
    else 10 * DigitsValue(ds[..|ds| - 1]) + (ds[|ds| - 1] - '0') as nat
  }

  /** The value of two digit strings written one after the other. */
  lemma {:induction false} DigitsAppend(a: string, b: string)
    requires AllDigits(a) && AllDigits(b)
    ensures AllDigits(a + b) && DigitsValue(a + b) == DigitsValue(a) * Pow10(|b|) + DigitsValue(b)
    decreases |b|
  {
    if b == [] {
      assert a + b == a;
    } else {
      var b' := b[..|b| - 1];
      DigitsAppend(a, b');
      assert (a + b)[..|a + b| - 1] == a + b';
      ShiftDigit(DigitsValue(a), Pow10(|b'|), DigitsValue(b'), (b[|b| - 1] - '0') as nat);
    }
  }

  lemma ShiftDigit(x: nat, p: nat, v: nat, d: nat)
    ensures 10 * (x * p + v) + d == x * (10 * p) + (10 * v + d)
  {
  }

  /** The value of `ip.fp` written in decimal. */
  function DecimalValue(ip: string, fp: string): (v: real)
    requires AllDigits(ip) && AllDigits(fp)
    ensures v >= 0.0
  {
    var frac := DigitsValue(fp) as real / Pow10(|fp|) as real;
    assert frac >= 0.0;
    DigitsValue(ip) as real + frac
  }

  /** The digits after a leading `.` (empty when `s` does not start with `.`). */
  function Fraction(s: string): (fp: string)
    ensures AllDigits(fp)
    ensures fp != [] ==> |fp| < |s| && s[0] == '.' && s[1..][..|fp|] == fp
  {
    if s != [] && s[0] == '.' then s[1..][..DigitRun(s[1..])] else ""
  }

  /** The number the longest decimal prefix of an unsigned text spells, if it starts with one. */
  function ParseUnsigned(body: string): (r: Option<real>)
    ensures r.Some? <==> (body != [] && IsDigit(body[0])) || (|body| >= 2 && body[0] == '.' && IsDigit(body[1]))
    ensures r.Some? ==> r.value >= 0.0
  {
    var n := DigitRun(body);
    var ip := body[..n];
    var fp := Fraction(body[n..]);
    assert n == 0 && |body| >= 2 && body[0] == '.' && IsDigit(body[1]) ==> fp != [] by {
      if n == 0 && |body| >= 2 && body[0] == '.' && IsDigit(body[1]) {
        assert body[n..][1..] == body[1..];
      }
    }
    if ip == [] && fp == [] then None else Some(DecimalValue(ip, fp))
  }

  /** `parseFloat(s)`, `None` standing for `NaN`. */
  function ParseFloat(s: string): (r: Option<real>)
    ensures r.Some? <==>
      var t := TrimStart(s);
      var body := if t != [] && (t[0] == '-' || t[0] == '+') then t[1..] else t;
      (body != [] && IsDigit(body[0])) || (|body| >= 2 && body[0] == '.' && IsDigit(body[1]))
  {
    var t := TrimStart(s);
    var neg := t != [] && t[0] == '-';
    var body := if t != [] && (t[0] == '-' || t[0] == '+') then t[1..] else t;
    match ParseUnsigned(body)
    case None => None
    case Some(v) => Some(if neg then -v else v)
  }

  /** `Math.abs`. */
  function Abs(x: real): (r: real)
    ensures r >= 0.0 && (r == x || r == -x)
  {
    if x < 0.0 then -x else x
  }

  /** A run of digits that is the whole text parses to the number it denotes. */
  lemma {:induction false} ParseFloatInteger(ds: string)
    requires ds != [] && AllDigits(ds)
    ensures ParseFloat(ds) == Some(DigitsValue(ds) as real)
  {
    ParseFloatUnsigned(ds);
    UnsignedInteger(ds);
  }

  lemma {:induction false} UnsignedInteger(ds: string)
    requires ds != [] && AllDigits(ds)
    ensures ParseUnsigned(ds) == Some(DigitsValue(ds) as real)
  {
    DigitRunAll(ds);
    assert ds[|ds|..] == [];
    assert ds[..|ds|] == ds;
    assert Fraction([]) == [];
  }

  /** Digits, a dot and more digits parse to the decimal number they spell. */
  lemma ParseFloatDecimal(ip: string, fp: string)
    requires ip != [] && AllDigits(ip) && AllDigits(fp)
    ensures ParseFloat(ip + "." + fp) == Some(DecimalValue(ip, fp))
  {
    assert (ip + "." + fp)[0] == ip[0];
    ParseFloatUnsigned(ip + "." + fp);
    UnsignedDecimal(ip, fp);
  }

  /** A text that starts with a digit is read without sign or leading space. */
  lemma {:induction false} ParseFloatUnsigned(s: string)
    requires s != [] && IsDigit(s[0])
    ensures ParseFloat(s) == ParseUnsigned(s)
  {
    var t := TrimStart(s);
    assert t == s;
    assert t != [] && t[0] != '-' && t[0] != '+';
  }

  lemma UnsignedDecimal(ip: string, fp: string)
    requires ip != [] && AllDigits(ip) && AllDigits(fp)
    ensures ParseUnsigned(ip + "." + fp) == Some(DecimalValue(ip, fp))
  {
    var s := ip + "." + fp;
    assert s == ip + ("." + fp);
    DigitRunPrefix(ip, "." + fp);
    assert s[..|ip|] == ip;
    assert s[|ip|..] == "." + fp;
    FractionAll(fp);
  }

  lemma FractionAll(fp: string)
    requires AllDigits(fp)
    ensures Fraction("." + fp) == fp
  {
    DigitRunAll(fp);
    assert ("." + fp)[1..] == fp;
    assert fp[..|fp|] == fp;
  }

  lemma {:induction false} DigitRunAll(ds: string)
    requires AllDigits(ds)
    ensures DigitRun(ds) == |ds|
  {
    if ds != [] {
      DigitRunAll(ds[1..]);
    }
  }

  lemma {:induction false} DigitRunPrefix(ds: string, rest: string)
    requires AllDigits(ds) && (rest == [] || !IsDigit(rest[0]))
    ensures DigitRun(ds + rest) == |ds|
  {
    if ds != [] {
      assert (ds + rest)[1..] == ds[1..] + rest;
      DigitRunPrefix(ds[1..], rest);
    } else {
      assert ds + rest == rest;
    }
  }
}
