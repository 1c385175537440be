/** The expectations of main_test.go, proved of the model. */
module Fixtures {
  import opened Text
  import opened Values
  import opened Timestamp
  import opened Scalars

  /* --- TestTransformString --- */

  lemma StringEmpty()
    ensures TransformString("") == None
  {
  }

  lemma StringTrimmed()
    ensures TransformString("1234  ") == Some(Str("1234"))
  {
    assert "" + "1234" + "  " == "1234  ";
    TrimSpacePadded("", "1234", "  ");
  }

  lemma Pad2(n: nat)
    requires n < 100
    ensures Pad(n, 2) == ['0' + (n / 10) as char, '0' + (n % 10) as char]
  {
    assert Pad(n / 10, 1) == Pad(n / 100, 0) + ['0' + (n / 10 % 10) as char];
  }

  lemma YearText()
    ensures Pad(2014, 4) == "2014"
  {
    assert Pad(2, 1) == "2";
    assert Pad(20, 2) == "20";
    assert Pad(201, 3) == "201";
  }

  lemma DateText(t: DateTime)
    requires t == DateTime(2014, 7, 16, 20, 55, 46, Utc)
    ensures FormatDate(t) == "2014-07-16"
  {
    YearText();
    Pad2(7);
    Pad2(16);
  }

  lemma TimeText(t: DateTime)
    requires t == DateTime(2014, 7, 16, 20, 55, 46, Utc)
    ensures FormatTime(t) == "20:55:46"
  {
    Pad2(20);
    Pad2(55);
    Pad2(46);
  }

  lemma TimestampText(t: DateTime)
    requires t == DateTime(2014, 7, 16, 20, 55, 46, Utc)
    ensures FormatRfc3339(t) == "2014-07-16T20:55:46Z"
  {
    DateText(t);
    TimeText(t);
  }

  lemma TimestampSeconds(t: DateTime)
    requires t == DateTime(2014, 7, 16, 20, 55, 46, Utc)
    ensures ValidDateTime(t) && EpochSeconds(t) == 1405544146
  {
    assert DaysBeforeYear(2014) == 735599;
    assert DaysBeforeYear(1970) == 719528;
    assert DaysBeforeMonth(7, 2014) == 181;
    assert DaysSinceEpoch(2014, 7, 16) == 16267;
  }

  lemma StringTimestamp()
    ensures TransformString("2014-07-16T20:55:46Z") == Some(Int(1405544146))
  {
    var t := DateTime(2014, 7, 16, 20, 55, 46, Utc);
    TimestampText(t);
    TimestampSeconds(t);
    assert "" + FormatRfc3339(t) + "" == "2014-07-16T20:55:46Z";
    StringConvertsTimestamps(t, "", "");
  }

  /* --- TestTransformNumeric --- */

  lemma UnsignedDigitStart(s: string)
    requires s != [] && IsDigit(s[0])
    ensures Unsigned(s) == s
  {
  }

  lemma NumericFloat()
    ensures TransformNumeric("1.50") == Some(Float(1.5))
  {
    assert DigitsValue("1") == 1;
    assert DigitsValue("50") == 50 by {
      assert "50"[..1] == "5";
    }
    assert Pow10(|"50"|) == 100;
    assert DecimalValue("1", "50") == 1.5;
    assert "" + "" + "1" + "." + "50" + "" == "1.50";
    NumericKeepsDecimal("", "", "1", "50", "");
  }

  lemma NumericLeadingZero()
    ensures TransformNumeric("011  ") == Some(Int(11))
  {
    assert FormatInt(11) == "11";
    assert "" + "0" + FormatInt(11) + "  " == "011  ";
    NumericKeepsNonZero(11, "", "0", "  ");
  }

  lemma NumericInvalid()
    ensures TransformNumeric("5215s") == None
  {
    var s := "5215s";
    assert |s| == 5 && s[0] == '5' && s[1] == '2' && s[2] == '1' && s[3] == '5' && s[4] == 's';
    assert !IsSpace(s[4]);
    TrimSpaceOfTrimmed(s);
    assert TrimLeadingZeros(s) == s;
    assert '.' !in s by {
      forall k | 0 <= k < |s|
        ensures s[k] != '.'
      {
        assert k == 0 || k == 1 || k == 2 || k == 3 || k == 4;
      }
    }
    UnsignedDigitStart(s);
    assert !AllDigits(s) by {
      assert !IsDigit(s[4]);
    }
  }

  /* --- TestTransformBool --- */

  lemma BoolInvalid()
    ensures TransformBool("1.50") == None
  {
    var s := "1.50";
    assert s[1] == '.';
    NotBoolLiteral(s);
    TrimSpaceOfTrimmed(s);
  }

  lemma BoolLeadingSpace()
    ensures TransformBool(" t") == Some(Bool(true))
  {
    assert " " + "t" + "" == " t";
    BoolKeepsLiterals("t", " ", "");
  }

  lemma BoolTrailingSpace()
    ensures TransformBool("0 ") == Some(Bool(false))
  {
    assert "" + "0" + " " == "0 ";
    BoolKeepsLiterals("0", "", " ");
  }

  /* --- Values inside the list, map and document tests --- */

  lemma NumericZeroPadded()
    ensures TransformNumeric("011") == Some(Int(11))
  {
    assert FormatInt(11) == "11";
    assert "" + "0" + FormatInt(11) + "" == "011";
    NumericKeepsNonZero(11, "", "0", "");
  }

  lemma BoolFalseLetter()
    ensures TransformBool("f") == Some(Bool(false))
  {
    assert "" + "f" + "" == "f";
    BoolKeepsLiterals("f", "", "");
  }

  lemma BoolNotLiteral()
    ensures TransformBool("truthy") == None
  {
    var s := "truthy";
    assert |s| == 6 && s[0] == 't' && s[5] == 'y';
    NotBoolLiteral(s);
    TrimSpaceOfTrimmed(s);
  }

  lemma NullZero()
    ensures TransformNull("0") == None
  {
    TrimSpaceOfTrimmed("0");
  }

  lemma NullTrue()
    ensures TransformNull("true") == Some(Bool(true))
  {
    TrimSpaceOfTrimmed("true");
  }

  lemma StringDigits()
    ensures TransformString("784498 ") == Some(Str("784498"))
  {
    assert "" + "784498" + " " == "784498 ";
    TrimSpacePadded("", "784498", " ");
    assert !DateTimeLayout("784498");
  }
}
