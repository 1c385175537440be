/** Character-level helpers the decoder relies on: Go's `strings.TrimSpace`,
    `strings.TrimLeft(s, "0")`, `strings.Contains(s, ".")` and the byte-wise
    string order used by `sort.Strings`. */
module Text {

  /** Go's `unicode.IsSpace`: the ASCII spaces plus the Unicode White_Space
      code points above U+007F. */
  predicate IsSpace(c: char) {
    || c == '\t' || c == '\n' || c == '\U{000B}' || c == '\U{000C}' || c == '\r' || c == ' '
    || c == '\U{0085}' || c == '\U{00A0}' || c == '\U{1680}'
    || ('\U{2000}' <= c <= '\U{200A}')
    || c == '\U{2028}' || c == '\U{2029}' || c == '\U{202F}' || c == '\U{205F}' || c == '\U{3000}'
  }

  predicate AllSpace(s: string) {
    forall i :: 0 <= i < |s| ==> IsSpace(s[i])
  }

  /** Go's `strings.TrimSpace`: white space is removed from the front, then
      from the back, until both ends are other characters. The result is
      empty exactly when `s` is blank; TrimSpacePadding shows it is what lies
      between the leading and trailing white space. */
  function TrimSpace(s: string): (r: string)
    ensures r != [] ==> !IsSpace(r[0]) && !IsSpace(r[|r| - 1])
    ensures r == [] <==> AllSpace(s)
    decreases |s|
  {
    if s == [] then []
    else if IsSpace(s[0]) then
      SpaceFront(s);
      TrimSpace(s[1..])
    else if IsSpace(s[|s| - 1]) then
      SpaceBack(s);
      TrimSpace(s[..|s| - 1])
    else s
  }

  /** A leading space does not change whether a string is blank. */
  lemma SpaceFront(s: string)
    requires s != [] && IsSpace(s[0])
    ensures AllSpace(s) <==> AllSpace(s[1..])
  {
    if AllSpace(s[1..]) {
      forall k | 0 < k < |s|
        ensures IsSpace(s[k])
      {
        assert s[k] == s[1..][k - 1];
      }
    }
  }

  /** A trailing space does not change whether a string is blank. */
  lemma SpaceBack(s: string)
    requires s != [] && IsSpace(s[|s| - 1])
    ensures AllSpace(s) <==> AllSpace(s[..|s| - 1])
  {
    var init := s[..|s| - 1];
    if AllSpace(s) {
      forall k | 0 <= k < |init|
        ensures IsSpace(init[k])
      {
        assert init[k] == s[k];
      }
    }
  }

  /** `s` splits as a blank prefix of length `i`, then `r`, then a blank suffix. */
  predicate Padded(s: string, i: int, r: string) {
    0 <= i <= |s| - |r| && r == s[i..i + |r|] && AllSpace(s[..i]) && AllSpace(s[i + |r|..])
  }

  /** The trimmed text is the part of `s` left between a run of leading and
      a run of trailing white space. */
  lemma {:induction false} TrimSpacePadding(s: string)
    ensures exists i :: Padded(s, i, TrimSpace(s))
    decreases |s|
  {
    var r := TrimSpace(s);
    if s == [] {
      assert Padded(s, 0, r);
    } else if IsSpace(s[0]) {
      var t := s[1..];
      TrimSpacePadding(t);
      var i :| Padded(t, i, r);
      PaddedFront(s, i, r);
    } else if IsSpace(s[|s| - 1]) {
      var t := s[..|s| - 1];
      TrimSpacePadding(t);
      var i :| Padded(t, i, r);
      PaddedBack(s, i, r);
    } else {
      assert s[..0] == [] && s[|s|..] == [] && s[0..|s|] == s;
      assert Padded(s, 0, r);
    }
  }

  lemma PaddedFront(s: string, i: int, r: string)
    requires s != [] && IsSpace(s[0]) && Padded(s[1..], i, r)
    ensures Padded(s, i + 1, r)
  {
    var t := s[1..];
    assert t[i..i + |r|] == s[i + 1..i + 1 + |r|];
    assert t[i + |r|..] == s[i + 1 + |r|..];
    var head := s[..i + 1];
    forall k | 0 <= k < |head|
      ensures IsSpace(head[k])
    {
      if k > 0 {
        assert head[k] == t[..i][k - 1];
      }
    }
  }

  lemma PaddedBack(s: string, i: int, r: string)
    requires s != [] && IsSpace(s[|s| - 1]) && Padded(s[..|s| - 1], i, r)
    ensures Padded(s, i, r)
  {
    var t := s[..|s| - 1];
    assert t[i..i + |r|] == s[i..i + |r|];
    assert t[..i] == s[..i];
    var tail := s[i + |r|..];
    forall k | 0 <= k < |tail|
      ensures IsSpace(tail[k])
    {
      if k < |tail| - 1 {
        assert tail[k] == t[i + |r|..][k];
      }
    }
  }

  /** Trimming twice is trimming once. */
  lemma {:induction false} TrimSpaceIdempotent(s: string)
    ensures TrimSpace(TrimSpace(s)) == TrimSpace(s)
  {
    TrimSpaceOfTrimmed(TrimSpace(s));
  }

  /** A string that neither starts nor ends with white space is its own trim. */
  lemma {:induction false} TrimSpaceOfTrimmed(s: string)
    requires s == [] || (!IsSpace(s[0]) && !IsSpace(s[|s| - 1]))
    ensures TrimSpace(s) == s
  {
  }

  /** Trailing white space after text that ends otherwise is removed. */
  lemma {:induction false} TrimTrailing(core: string, trail: string)
    requires AllSpace(trail)
    requires core != [] && !IsSpace(core[0]) && !IsSpace(core[|core| - 1])
    ensures TrimSpace(core + trail) == core
    decreases |trail|
  {
    var s := core + trail;
    if trail == [] {
      assert s == core;
      TrimSpaceOfTrimmed(core);
    } else {
      assert s[0] == core[0] && s[|s| - 1] == trail[|trail| - 1];
      assert s[..|s| - 1] == core + trail[..|trail| - 1];
      TrimTrailing(core, trail[..|trail| - 1]);
    }
  }

  /** Surrounding white space is exactly what trimming removes. */
  lemma {:induction false} TrimSpacePadded(lead: string, core: string, trail: string)
    requires AllSpace(lead) && AllSpace(trail)
    requires core != [] && !IsSpace(core[0]) && !IsSpace(core[|core| - 1])
    ensures TrimSpace(lead + core + trail) == core
    decreases |lead|
  {
    var s := lead + core + trail;
    if lead == [] {
      assert s == core + trail;
      TrimTrailing(core, trail);
    } else {
      assert s[0] == lead[0];
      assert s[1..] == lead[1..] + core + trail;
      TrimSpacePadded(lead[1..], core, trail);
    }
  }

  /** Go's `strings.TrimLeft(s, "0")`: every leading '0' is removed. */
  function TrimLeadingZeros(s: string): (r: string)
    ensures |r| <= |s| && r == s[|s| - |r|..]
    ensures forall i :: 0 <= i < |s| - |r| ==> s[i] == '0'
    ensures r == [] || r[0] != '0'
  {
    if s != [] && s[0] == '0' then TrimLeadingZeros(s[1..]) else s
  }

  lemma {:induction false} TrimLeadingZerosPadded(zeros: string, rest: string)
    requires forall i :: 0 <= i < |zeros| ==> zeros[i] == '0'
    requires rest == [] || rest[0] != '0'
    ensures TrimLeadingZeros(zeros + rest) == rest
  {
    if zeros != [] {
      assert (zeros + rest)[1..] == zeros[1..] + rest;
      TrimLeadingZerosPadded(zeros[1..], rest);
    }
  }

  predicate IsDigit(c: char) {
    '0' <= c <= '9'
  }

  predicate AllDigits(s: string) {
    forall i :: 0 <= i < |s| ==> IsDigit(s[i])
  }

  /** The value of a run of decimal digits. */
  function DigitsValue(s: string): nat
    requires AllDigits(s)
  {
    if s == [] then 0 else 10 * DigitsValue(s[..|s| - 1]) + (s[|s| - 1] - '0') as int
  }

  /** The shortest decimal digits of `n` (Go's `strconv.Itoa` for n >= 0). */
  function Digits(n: nat): (r: string)
    ensures r != [] && AllDigits(r)
    ensures (n == 0) == (r[0] == '0')
  {
    var d := ['0' + (n % 10) as char];
    if n < 10 then d else Digits(n / 10) + d
  }

  /** Reading back the digits of `n` gives `n`. */
  lemma {:induction false} DigitsValueOfDigits(n: nat)
    ensures DigitsValue(Digits(n)) == n
  {
    var s := Digits(n);
    if n >= 10 {
      DigitsValueOfDigits(n / 10);
      assert s[..|s| - 1] == Digits(n / 10);
    }
  }

  /** Byte-wise order of Go strings. Go compares the UTF-8 encodings, which
      order like the code points they encode, so comparing characters suffices. */
  predicate Less(a: string, b: string) {
    if a == [] then b != []
    else if b == [] then false
    else if a[0] != b[0] then a[0] < b[0]
    else Less(a[1..], b[1..])
  }

  lemma {:induction false} LessIrreflexive(a: string)
    ensures !Less(a, a)
  {
    if a != [] {
      LessIrreflexive(a[1..]);
    }
  }

  lemma {:induction false} LessTransitive(a: string, b: string, c: string)
    requires Less(a, b) && Less(b, c)
    ensures Less(a, c)
  {
    if a != [] && b != [] && c != [] && a[0] == b[0] == c[0] {
      LessTransitive(a[1..], b[1..], c[1..]);
    }
  }

  lemma {:induction false} LessTotal(a: string, b: string)
    ensures a == b || Less(a, b) || Less(b, a)
  {
    if a != [] && b != [] && a[0] == b[0] {
      LessTotal(a[1..], b[1..]);
      if a[1..] == b[1..] {
        assert a == [a[0]] + a[1..] && b == [b[0]] + b[1..];
      }
    }
  }
}
