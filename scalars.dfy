/** The four scalar converters of main.go (`transformString`,
    `transformNumeric`, `transformBool`, `transformNull`) and the library
    parsers they call. Each returns `None` where the source returns nil. */
module Scalars {
  import opened Text
  import opened Values
  import opened Timestamp

  /* --- strconv.ParseBool --- */

  const TrueLiterals: set<string> := {"1", "t", "T", "TRUE", "true", "True"}
  const FalseLiterals: set<string> := {"0", "f", "F", "FALSE", "false", "False"}

  /** Go's `strconv.ParseBool`: twelve accepted spellings, case-sensitive. */
  function ParseBool(s: string): (r: Option<bool>)
    ensures r == Some(true) <==> s in TrueLiterals
    ensures r == Some(false) <==> s in FalseLiterals
  {
    match s
    case "1" | "t" | "T" | "TRUE" | "true" | "True" => Some(true)
    case "0" | "f" | "F" | "FALSE" | "false" | "False" => Some(false)
    case _ => None
  }

  /* --- strconv.ParseInt(s, 10, 64), through json.Number.Int64 --- */

  const MinInt64: int := -0x8000_0000_0000_0000
  const MaxInt64: int := 0x7FFF_FFFF_FFFF_FFFF

  /** `s` without its optional leading sign. */
  function Unsigned(s: string): (r: string)
    ensures |r| <= |s|
  {
    if s != [] && (s[0] == '+' || s[0] == '-') then s[1..] else s
  }

  /** The text `ParseInt` accepts in base 10: an optional sign, then one or
      more digits (no underscores, no prefix). */
  predicate IsIntegerText(s: string) {
    Unsigned(s) != [] && AllDigits(Unsigned(s))
  }

  /** The mathematical value of integer text. */
  function IntegerValue(s: string): int
    requires IsIntegerText(s)
  {
    var n: int := DigitsValue(Unsigned(s));
    if s[0] == '-' then -n else n
  }

  /** Go's `strconv.ParseInt(s, 10, 64)`: integer text whose value fits in
      64 bits; anything else is a syntax or range error. */
  function ParseInt64(s: string): (r: Option<int>)
    ensures r.Some? <==> IsIntegerText(s) && MinInt64 <= IntegerValue(s) <= MaxInt64
    ensures r.Some? ==> r.value == IntegerValue(s)
  {
    if s == [] then None
    else
      var body := Unsigned(s);
      if body == [] || !AllDigits(body) then None
      else
        var n: int := DigitsValue(body);
        var v := if s[0] == '-' then -n else n;
        if v < MinInt64 || MaxInt64 < v then None else Some(v)
  }

  /** Go's `strconv.FormatInt(n, 10)`. */
  function FormatInt(n: int): (r: string)
    ensures r != []
  {
    if n < 0 then "-" + Digits(-n) else Digits(n)
  }

  /** `ParseInt64` reads back every 64-bit integer `FormatInt` writes. */
  lemma ParseFormatInt(n: int)
    requires MinInt64 <= n <= MaxInt64
    ensures ParseInt64(FormatInt(n)) == Some(n)
  {
    if n < 0 {
      assert Unsigned(FormatInt(n)) == Digits(-n);
      DigitsValueOfDigits(-n);
    } else {
      assert Unsigned(FormatInt(n)) == Digits(n);
      DigitsValueOfDigits(n);
    }
  }

  /* --- strconv.ParseFloat(s, 64), through json.Number.Float64 --- */

  /** Index of the first `e` or `E` of `s`, or `|s|`. */
  function ExponentStart(s: string): (i: nat)
    ensures i <= |s|
    ensures i < |s| ==> s[i] == 'e' || s[i] == 'E'
  {
    if s == [] || s[0] == 'e' || s[0] == 'E' then 0 else 1 + ExponentStart(s[1..])
  }

  /** Index of the first `.` of `s`, or `|s|`. */
  function DotIndex(s: string): (i: nat)
    ensures i <= |s|
    ensures i < |s| ==> s[i] == '.'
  {
    if s == [] || s[0] == '.' then 0 else 1 + DotIndex(s[1..])
  }

  /** The value of the decimal `whole.frac`. */
  function DecimalValue(whole: string, frac: string): real
    requires AllDigits(whole) && AllDigits(frac)
  {
    DigitsValue(whole) as real + DigitsValue(frac) as real / Pow10(|frac|) as real
  }

  /** Decimal mantissa: digits with at most one `.`, and at least one digit. */
  function MantissaValue(m: string): Option<real> {
    var d := DotIndex(m);
    var whole := m[..d];
    var frac := if d < |m| then m[d + 1..] else [];
    if AllDigits(whole) && AllDigits(frac) && |whole| + |frac| > 0 then
      Some(DecimalValue(whole, frac))
    else None
  }

  /** Decimal exponent after `e`: an optional sign, then digits. */
  function ExponentValue(e: string): Option<int> {
    var body := Unsigned(e);
    if body != [] && AllDigits(body) then
      var n: int := DigitsValue(body);
      Some(if e[0] == '-' then -n else n)
    else None
  }

  function Scale(x: real, e: int): real
    decreases if e < 0 then -e else e
  {
    if e == 0 then x
    else if e > 0 then 10.0 * Scale(x, e - 1)
    else Scale(x, e + 1) / 10.0
  }

  /** Go's `strconv.ParseFloat(s, 64)` on decimal text: an optional sign,
      a mantissa with at least one digit and at most one `.`, and an optional
      `e`/`E` exponent with at least one digit. The value is the exact decimal. */
  function ParseFloat(s: string): (r: Option<real>)
    ensures r.Some? ==> exists k :: 0 <= k < |s| && IsDigit(s[k])
  {
    var body := Unsigned(s);
    var i := ExponentStart(body);
    var mantissa := MantissaValue(body[..i]);
    var exponent := if i == |body| then Some(0) else ExponentValue(body[i + 1..]);
    if mantissa.None? || exponent.None? then None
    else
      assert exists k :: 0 <= k < |body[..i]| && IsDigit(body[..i][k]) by {
        var m := body[..i];
        var d := DotIndex(m);
        if d > 0 {
          assert IsDigit(m[..d][0]);
        } else {
          assert IsDigit(m[d + 1..][0]);
        }
      }
      var v := Scale(mantissa.value, exponent.value);
      Some(if s != [] && s[0] == '-' then -v else v)
  }

  /** Scaling up by `e` multiplies by ten to the power `e`. */
  lemma {:induction false} ScaleUp(x: real, e: nat)
    ensures Scale(x, e) == x * Pow10(e) as real
  {
    if e > 0 {
      ScaleUp(x, e - 1);
      var p := Pow10(e - 1) as real;
      assert Pow10(e) as real == 10.0 * p;
      assert 10.0 * (x * p) == x * (10.0 * p);
    }
  }

  /** Scaling down by `e` divides by ten to the power `e`. */
  lemma {:induction false} ScaleDown(x: real, e: nat)
    ensures Scale(x, -(e as int)) == x / Pow10(e) as real
  {
    if e > 0 {
      ScaleDown(x, e - 1);
      var p := Pow10(e - 1) as real;
      assert Pow10(e) as real == 10.0 * p;
      assert p > 0.0;
      assert (x / p) / 10.0 == x / (10.0 * p);
    }
  }

  /** Text without `e` or `E` has no exponent. */
  lemma {:induction false} NoExponentMarker(s: string)
    requires forall k :: 0 <= k < |s| ==> s[k] != 'e' && s[k] != 'E'
    ensures ExponentStart(s) == |s|
  {
    if s != [] {
      NoExponentMarker(s[1..]);
    }
  }

  /** Text without a dot has its dot index at its end. */
  lemma {:induction false} NoDot(s: string)
    requires forall k :: 0 <= k < |s| ==> s[k] != '.'
    ensures DotIndex(s) == |s|
  {
    if s != [] {
      NoDot(s[1..]);
    }
  }

  /** The first dot of `m + t`, when `m` holds none, is the first dot of `t`. */
  lemma {:induction false} DotIndexAppend(m: string, t: string)
    requires DotIndex(m) == |m|
    ensures DotIndex(m + t) == |m| + DotIndex(t)
  {
    if m == [] {
      assert m + t == t;
    } else {
      assert (m + t)[0] == m[0];
      assert (m + t)[1..] == m[1..] + t;
      DotIndexAppend(m[1..], t);
    }
  }

  /** The first exponent marker of `m + t`, when `m` holds none, is the first of `t`. */
  lemma {:induction false} ExponentStartAppend(m: string, t: string)
    requires ExponentStart(m) == |m|
    ensures ExponentStart(m + t) == |m| + ExponentStart(t)
  {
    if m == [] {
      assert m + t == t;
    } else {
      assert (m + t)[0] == m[0];
      assert (m + t)[1..] == m[1..] + t;
      ExponentStartAppend(m[1..], t);
    }
  }

  /** The mantissa `whole.frac`: everything before the dot, then everything after. */
  lemma MantissaOfDecimal(whole: string, frac: string)
    requires AllDigits(whole) && AllDigits(frac) && |whole| + |frac| > 0
    ensures MantissaValue(whole + "." + frac) == Some(DecimalValue(whole, frac))
  {
    var m := whole + "." + frac;
    assert m == whole + ("." + frac);
    NoDot(whole);
    DotIndexAppend(whole, "." + frac);
    assert m[..|whole|] == whole;
    assert m[|whole| + 1..] == frac;
  }

  /** A decimal `whole.frac` holds no exponent marker. */
  lemma NoExponent(whole: string, frac: string)
    requires AllDigits(whole) && AllDigits(frac)
    ensures ExponentStart(whole + "." + frac) == |whole + "." + frac|
  {
    var m := whole + "." + frac;
    forall k | 0 <= k < |m|
      ensures m[k] != 'e' && m[k] != 'E'
    {
      if k < |whole| {
        assert m[k] == whole[k];
      } else if k > |whole| {
        assert m[k] == frac[k - |whole| - 1];
      }
    }
    NoExponentMarker(m);
  }

  /** An optional sign in front of text that does not start with one. */
  lemma SignedText(sign: string, body: string)
    requires sign == "" || sign == "+" || sign == "-"
    requires body != [] && body[0] != '+' && body[0] != '-'
    ensures Unsigned(sign + body) == body
    ensures (sign + body)[0] == '-' <==> sign == "-"
  {
    if sign == "" {
      assert sign + body == body;
    } else {
      assert (sign + body)[1..] == body;
    }
  }

  /** Text without an exponent marker, then a marker and more text: the
      exponent starts at the marker. */
  lemma ExponentAt(m: string, mark: char, e: string)
    requires ExponentStart(m) == |m| && (mark == 'e' || mark == 'E')
    ensures var body := m + [mark] + e;
      ExponentStart(body) == |m| && body[..|m|] == m && body[|m| + 1..] == e
  {
    var t := [mark] + e;
    assert t[0] == mark;
    assert ExponentStart(t) == 0;
    var body := m + t;
    assert m + [mark] + e == body;
    ExponentStartAppend(m, t);
    assert body[..|m|] == m;
    assert body[|m| + 1..] == e;
  }

  /** An optional sign, then a decimal with a dot and at least one digit,
      parses as the exact value of that decimal, negated after `-`. */
  lemma ParseFloatDecimal(sign: string, whole: string, frac: string)
    requires sign == "" || sign == "+" || sign == "-"
    requires AllDigits(whole) && AllDigits(frac) && |whole| + |frac| > 0
    ensures ParseFloat(sign + whole + "." + frac)
      == Some(if sign == "-" then -DecimalValue(whole, frac) else DecimalValue(whole, frac))
  {
    var m := whole + "." + frac;
    var s := sign + m;
    assert sign + whole + "." + frac == s;
    assert m[0] == '.' || m[0] == whole[0];
    SignedText(sign, m);
    NoExponent(whole, frac);
    assert m[..|m|] == m;
    MantissaOfDecimal(whole, frac);
    ParseFloatNoExponent(s, m, DecimalValue(whole, frac));
  }

  /** Signed text whose unsigned part is a mantissa alone. */
  lemma ParseFloatNoExponent(s: string, m: string, v: real)
    requires Unsigned(s) == m && ExponentStart(m) == |m| && MantissaValue(m) == Some(v)
    ensures ParseFloat(s) == Some(if s != [] && s[0] == '-' then -v else v)
  {
    assert m[..|m|] == m;
  }

  /** Text whose unsigned part is a mantissa, then `e` or `E` at `i`, then an
      exponent, parses as the mantissa times ten to the power of the
      exponent, negated after a leading `-`. MantissaOfDecimal, ExponentAt and
      ExponentOfText give the parts for text written out digit by digit. */
  lemma ParseFloatExponent(s: string, i: nat, v: real, n: int)
    requires ExponentStart(Unsigned(s)) == i < |Unsigned(s)|
    requires MantissaValue(Unsigned(s)[..i]) == Some(v) && ExponentValue(Unsigned(s)[i + 1..]) == Some(n)
    ensures var scaled := if n >= 0 then v * Pow10(n) as real else v / Pow10(-n) as real;
      ParseFloat(s) == Some(if s != [] && s[0] == '-' then -scaled else scaled)
  {
    if n < 0 {
      ScaleDown(v, -n);
    } else {
      ScaleUp(v, n);
    }
  }

  /** Exponent text: an optional sign, then digits. */
  lemma ExponentOfText(esign: string, exp: string)
    requires esign == "" || esign == "+" || esign == "-"
    requires exp != [] && AllDigits(exp)
    ensures ExponentValue(esign + exp) == Some(ExponentOf(esign, exp))
  {
    assert exp[0] != '+' && exp[0] != '-';
    SignedText(esign, exp);
  }

  /** The exponent `esign exp` names. */
  function ExponentOf(esign: string, exp: string): int
    requires AllDigits(exp)
  {
    if esign == "-" then -(DigitsValue(exp) as int) else DigitsValue(exp)
  }

  /* --- The converters --- */

  /** The text `transformNumeric` classifies: trimmed, leading zeros stripped. */
  function NumericText(s: string): (t: string)
    ensures t == [] || t[0] != '0'
  {
    TrimLeadingZeros(TrimSpace(s))
  }

  /** main.go `transformNumeric`. Text without a `.` goes to the 64-bit integer
      parser and is kept exactly when that parser accepts it; text with a `.`
      goes to the float parser; empty text is dropped. */
  function TransformNumeric(s: string): (r: Option<Plain>)
    ensures NumericText(s) == [] ==> r == None
    ensures '.' !in NumericText(s) ==>
      (r.Some? <==> ParseInt64(NumericText(s)).Some?) && (r.Some? ==> r.value == Int(IntegerValue(NumericText(s))))
    ensures NumericText(s) != [] && '.' in NumericText(s) ==>
      (r.Some? <==> ParseFloat(NumericText(s)).Some?) && (r.Some? ==> r.value == Float(ParseFloat(NumericText(s)).value))
    ensures r.Some? && r.value.Int? ==> MinInt64 <= r.value.i <= MaxInt64
  {
    var t := NumericText(s);
    if t == [] then None
    else if '.' in t then
      match ParseFloat(t)
      case None => None
      case Some(x) => Some(Float(x))
    else
      match ParseInt64(t)
      case None => None
      case Some(n) => Some(Int(n))
  }

  /** main.go `transformBool`: after trimming, exactly the twelve spellings
      of `ParseBool` are kept, as the boolean they spell (false included). */
  function TransformBool(s: string): (r: Option<Plain>)
    ensures r.Some? <==> TrimSpace(s) in TrueLiterals || TrimSpace(s) in FalseLiterals
    ensures r.Some? ==> r.value == Bool(TrimSpace(s) in TrueLiterals)
  {
    var t := TrimSpace(s);
    if t == "" then
      BlankNotLiteral();
      None
    else
      match ParseBool(t)
      case None => None
      case Some(b) => Some(Bool(b))
  }

  lemma BlankNotLiteral()
    ensures "" !in TrueLiterals && "" !in FalseLiterals
  {
  }

  /** Every spelling ParseBool accepts is at most five letters or digits, so
      longer text, or text holding a dot, is none of them. */
  lemma NotBoolLiteral(s: string)
    requires |s| > 5 || '.' in s
    ensures s !in TrueLiterals && s !in FalseLiterals
  {
  }

  /** main.go `transformNull`: only a spelling of true survives, as `true`. */
  function TransformNull(s: string): (r: Option<Plain>)
    ensures r.Some? <==> TrimSpace(s) in TrueLiterals
    ensures r.Some? ==> r.value == Bool(true)
  {
    match ParseBool(TrimSpace(s))
    case None => None
    case Some(b) => if !b then None else Some(Bool(b))
  }

  /** main.go `transformString`: blank text is dropped; an RFC 3339 date-time
      becomes its Unix time; any other text is kept trimmed. */
  function TransformString(s: string): (r: Option<Plain>)
    ensures r.None? <==> AllSpace(s)
    ensures r.Some? ==> r.value.Str? || r.value.Int?
    ensures r.Some? && r.value.Str? ==>
      r.value.s == TrimSpace(s) && ParseRfc3339(TrimSpace(s)).None?
    ensures r.Some? && r.value.Int? ==>
      var t := ParseRfc3339(TrimSpace(s)); t.Some? && r.value.i == EpochSeconds(t.value)
  {
    var t := TrimSpace(s);
    if t == "" then None
    else
      match ParseRfc3339(t)
      case Some(time) => Some(Int(EpochSeconds(time)))
      case None => Some(Str(t))
  }

  /* --- What the converters accept, stated through their inverses --- */

  predicate AllZeros(s: string) {
    forall i :: 0 <= i < |s| ==> s[i] == '0'
  }

  /** The text of a non-zero integer: no leading zero, no `.`, and it
      starts and ends with a non-space character. */
  lemma FormatIntShape(n: int)
    requires n != 0
    ensures var f := FormatInt(n);
      f[0] != '0' && '.' !in f && !IsSpace(f[0]) && !IsSpace(f[|f| - 1])
  {
    var m := if n < 0 then -n else n;
    var d := Digits(m);
    var f := FormatInt(n);
    assert f[|f| - 1] == d[|d| - 1];
    assert f[0] == '-' || f[0] == d[0];
    assert forall k :: 0 <= k < |d| ==> d[k] != '.';
    assert n < 0 ==> f == "-" + d;
  }

  /** Every non-zero 64-bit integer survives `transformNumeric`, whatever
      white space surrounds it and however many zeros precede it. */
  lemma NumericKeepsNonZero(n: int, lead: string, zeros: string, trail: string)
    requires MinInt64 <= n <= MaxInt64 && n != 0
    requires AllSpace(lead) && AllZeros(zeros) && AllSpace(trail)
    ensures TransformNumeric(lead + zeros + FormatInt(n) + trail) == Some(Int(n))
  {
    var f := FormatInt(n);
    var core := zeros + f;
    FormatIntShape(n);
    assert core[|core| - 1] == f[|f| - 1];
    assert !IsSpace(core[0]) by {
      if zeros != [] {
        assert core[0] == zeros[0];
      }
    }
    assert lead + zeros + f + trail == lead + core + trail;
    TrimSpacePadded(lead, core, trail);
    TrimLeadingZerosPadded(zeros, f);
    ParseFormatInt(n);
  }

  lemma UnsignedDecimal(whole: string, frac: string)
    requires AllDigits(whole) && AllDigits(frac) && |whole| + |frac| > 0
    ensures ParseFloat(whole + "." + frac) == Some(DecimalValue(whole, frac))
  {
    assert "" + whole + "." + frac == whole + "." + frac;
    ParseFloatDecimal("", whole, frac);
  }

  /** Padding and leading zeros are what `transformNumeric` strips before it
      classifies the text. */
  lemma NumericTextPadded(lead: string, zeros: string, rest: string, trail: string)
    requires AllSpace(lead) && AllZeros(zeros) && AllSpace(trail)
    requires rest != [] && rest[0] != '0' && !IsSpace(rest[0]) && !IsSpace(rest[|rest| - 1])
    ensures NumericText(lead + zeros + rest + trail) == rest
  {
    var core := zeros + rest;
    assert lead + zeros + rest + trail == lead + core + trail;
    assert core[|core| - 1] == rest[|rest| - 1];
    assert !IsSpace(core[0]) by {
      if zeros != [] {
        assert core[0] == zeros[0];
      } else {
        assert core[0] == rest[0];
      }
    }
    TrimSpacePadded(lead, core, trail);
    TrimLeadingZerosPadded(zeros, rest);
  }

  /** Text whose numeric text holds a dot is the float that text parses as. */
  lemma NumericFloatText(s: string, v: Option<real>)
    requires '.' in NumericText(s) && ParseFloat(NumericText(s)) == v
    ensures TransformNumeric(s) == if v.Some? then Some(Float(v.value)) else None
  {
  }

  /** A decimal with a dot and at least one digit survives `transformNumeric`
      as its exact value, whatever white space surrounds it and however many
      zeros precede it: `" 01.50 "` is 1.5 and `"0.5"` is 0.5. */
  lemma NumericKeepsDecimal(lead: string, zeros: string, whole: string, frac: string, trail: string)
    requires AllSpace(lead) && AllZeros(zeros) && AllSpace(trail)
    requires AllDigits(whole) && AllDigits(frac) && |whole| + |frac| > 0
    requires whole == [] || whole[0] != '0'
    ensures TransformNumeric(lead + zeros + whole + "." + frac + trail) == Some(Float(DecimalValue(whole, frac)))
  {
    var rest := whole + "." + frac;
    var s := lead + zeros + rest + trail;
    assert lead + zeros + whole + "." + frac + trail == s;
    assert rest[|whole|] == '.';
    assert rest[0] == '.' || rest[0] == whole[0];
    assert rest[|rest| - 1] == '.' || rest[|rest| - 1] == frac[|frac| - 1];
    NumericTextPadded(lead, zeros, rest, trail);
    UnsignedDecimal(whole, frac);
    NumericFloatText(s, Some(DecimalValue(whole, frac)));
  }

  /** Zeros and a dot alone are dropped: `"0."` strips to `"."`, which the
      float parser rejects. */
  lemma NumericDropsBareDot(lead: string, zeros: string, trail: string)
    requires AllSpace(lead) && AllZeros(zeros) && AllSpace(trail)
    ensures TransformNumeric(lead + zeros + "." + trail) == None
  {
    var s := lead + zeros + "." + trail;
    NumericTextPadded(lead, zeros, ".", trail);
    assert ExponentStart(".") == 1;
    assert MantissaValue(".") == None;
    NumericFloatText(s, None);
  }

  /** Zero written as zeros alone is dropped: `"0"`, `"000"` and `" 0 "` vanish. */
  lemma NumericDropsZeros(lead: string, zeros: string, trail: string)
    requires AllSpace(lead) && AllZeros(zeros) && AllSpace(trail)
    ensures TransformNumeric(lead + zeros + trail) == None
  {
    if zeros == [] {
      assert AllSpace(lead + zeros + trail);
    } else {
      TrimSpacePadded(lead, zeros, trail);
      TrimLeadingZerosPadded(zeros, []);
      assert zeros + [] == zeros;
    }
  }

  /** Every spelling of a boolean, padded with white space, converts to the
      boolean it spells. */
  lemma BoolKeepsLiterals(lit: string, lead: string, trail: string)
    requires lit in TrueLiterals || lit in FalseLiterals
    requires AllSpace(lead) && AllSpace(trail)
    ensures TransformBool(lead + lit + trail) == Some(Bool(lit in TrueLiterals))
  {
    TrimSpacePadded(lead, lit, trail);
  }

  /** Every RFC 3339 date-time, padded with white space, converts to its Unix time. */
  lemma StringConvertsTimestamps(t: DateTime, lead: string, trail: string)
    requires ValidDateTime(t)
    requires AllSpace(lead) && AllSpace(trail)
    ensures TransformString(lead + FormatRfc3339(t) + trail) == Some(Int(EpochSeconds(t)))
  {
    var f := FormatRfc3339(t);
    FormatLayout(t);
    assert !IsSpace(f[|f| - 1]) by {
      var z := FormatZone(t.zone);
      assert f[|f| - 1] == z[|z| - 1];
      if t.zone.Offset? {
        assert z[|z| - 1] == Pad(t.zone.minutes, 2)[1];
      }
    }
    TrimSpacePadded(lead, f, trail);
    ParseFormatRoundTrip(t);
  }
}
