/** The phone normaliser (`normalizePhone`): keep the digits, drop a number
    with none, strip leading zeros, and prefix the configured country code
    unless the number already starts with it. The source reads the code from the
    module constant DEFAULT_COUNTRY_CODE (set to ''); here it is the parameter `cc`. */
module Phone {
  import opened Text

  /** `raw.replace(/[^\d]/g, '')`: the digits of `s`, in order. */
  function KeepDigits(s: string): (r: string)
    ensures AllDigits(r)
  {
    if s == [] then ""
    else if IsDigit(s[0]) then [s[0]] + KeepDigits(s[1..])
    else KeepDigits(s[1..])
  }

  /** A string of digits is kept whole. */
  lemma {:induction false} KeepDigitsOfDigits(s: string)
    requires AllDigits(s)
    ensures KeepDigits(s) == s
  {
    if s != [] {
      KeepDigitsOfDigits(s[1..]);
      assert s == [s[0]] + s[1..];
    }
  }

  /** The characters kept are exactly the digits of the input. */
  lemma {:induction false} KeepDigitsMembers(s: string)
    ensures forall c :: c in KeepDigits(s) <==> c in s && IsDigit(c)
  {
    if s != [] {
      KeepDigitsMembers(s[1..]);
      assert s == [s[0]] + s[1..];
    }
  }

  /** `p.replace(/^0+/, '')`: what is dropped is all zeros and what is kept
      is a suffix that does not start with a zero. */
  function StripLeadingZeros(s: string): (r: string)
    ensures |r| <= |s| && r == s[|s| - |r|..]
    ensures forall i :: 0 <= i < |s| - |r| ==> s[i] == '0'
    ensures r == [] || r[0] != '0'
  {
    if s != [] && s[0] == '0' then StripLeadingZeros(s[1..]) else s
  }

  function NormalizePhone(raw: string, cc: string): (r: string)
    ensures KeepDigits(raw) == [] ==> r == []
    ensures |r| <= |cc| + |KeepDigits(raw)|
    ensures r != [] && cc != [] ==> StartsWith(r, cc)
  {
    var digits := KeepDigits(raw);
    if digits == [] then ""
    else
      var p := StripLeadingZeros(digits);
      if cc != [] && !StartsWith(p, cc) then cc + p else p
  }

  /** Every digit of `s` is a zero (vacuously so when `s` has no digit). */
  predicate OnlyZeroDigits(s: string) {
    forall i :: 0 <= i < |s| && IsDigit(s[i]) ==> s[i] == '0'
  }

  /** The phone comes out empty (and the row is skipped) exactly when the raw
      text has no digit, or no country code is configured and every digit is a zero. */
  lemma EmptyIff(raw: string, cc: string)
    ensures NormalizePhone(raw, cc) == "" <==> !HasDigit(raw) || (cc == "" && OnlyZeroDigits(raw))
  {
    if HasDigit(raw) {
      EmptyWithDigits(raw, cc);
    } else {
      KeepDigitsMembers(raw);
    }
  }

  /** With a digit present, only an all-zero number without a country code
      comes out empty. */
  lemma EmptyWithDigits(raw: string, cc: string)
    requires HasDigit(raw)
    ensures NormalizePhone(raw, cc) == "" <==> cc == "" && OnlyZeroDigits(raw)
  {
    var digits := KeepDigits(raw);
    KeepDigitsMembers(raw);
    var i :| 0 <= i < |raw| && IsDigit(raw[i]);
    assert raw[i] in digits;
    var p := StripLeadingZeros(digits);
    if p == [] {
      forall j | 0 <= j < |raw| && IsDigit(raw[j]) ensures raw[j] == '0' {
        assert raw[j] in digits;
        var k :| 0 <= k < |digits| && digits[k] == raw[j];
      }
    }
  }

  lemma AllZerosExample()
    ensures NormalizePhone("0000", "") == ""
    ensures NormalizePhone("0000", "91") == "91"
  {
    KeepDigitsOfDigits("0000");
    assert StripLeadingZeros("0000") == "";
  }

  /** With an all-digit country code the phone is all digits. */
  lemma DigitsOnly(raw: string, cc: string)
    requires AllDigits(cc)
    ensures AllDigits(NormalizePhone(raw, cc))
  {
    var digits := KeepDigits(raw);
    if digits != [] {
      var p := StripLeadingZeros(digits);
      assert AllDigits(p) by {
        forall i | 0 <= i < |p| ensures IsDigit(p[i]) {
          assert p[i] == digits[|digits| - |p| + i];
        }
      }
    }
  }

  /** With no country code the phone never starts with '0'. */
  lemma NoLeadingZero(raw: string)
    ensures var p := NormalizePhone(raw, ""); p == [] || p[0] != '0'
  {
  }

  /** With a country code, every raw number that has a digit starts with it. */
  lemma StartsWithCountryCode(raw: string, cc: string)
    requires cc != [] && HasDigit(raw)
    ensures StartsWith(NormalizePhone(raw, cc), cc)
  {
    var i :| 0 <= i < |raw| && IsDigit(raw[i]);
    KeepDigitsMembers(raw);
    assert raw[i] in KeepDigits(raw);
  }

  /** Normalising twice is normalising once, when the country code is empty or
      all digits and not starting with '0'. */
  lemma Idempotent(raw: string, cc: string)
    requires cc == [] || (AllDigits(cc) && cc[0] != '0')
    ensures NormalizePhone(NormalizePhone(raw, cc), cc) == NormalizePhone(raw, cc)
  {
    var p := NormalizePhone(raw, cc);
    DigitsOnly(raw, cc);
    EmptyIff(raw, cc);
    if p != [] {
      KeepDigitsOfDigits(p);
      assert p[0] != '0' by {
        if cc != [] {
          StartsWithCountryCode(raw, cc);
          assert p[0] == cc[0];
        }
      }
      assert StripLeadingZeros(p) == p;
      if cc != [] {
        StartsWithCountryCode(raw, cc);
      }
    }
  }

  /** A digit string that does not start with '0' is kept as it is, with
      the country code in front unless it already starts with it. */
  lemma NormalizeDigits(t: string, cc: string)
    requires AllDigits(t) && t != [] && t[0] != '0'
    ensures NormalizePhone(t, cc) == if cc != [] && !StartsWith(t, cc) then cc + t else t
  {
    KeepDigitsOfDigits(t);
  }

  /** One leading zero makes no difference. */
  lemma NormalizeZeroDigits(t: string, cc: string)
    requires AllDigits(t) && t != [] && t[0] != '0'
    ensures NormalizePhone("0" + t, cc) == NormalizePhone(t, cc)
  {
    var z := "0" + t;
    assert AllDigits(z);
    KeepDigitsOfDigits(z);
    KeepDigitsOfDigits(t);
    assert z[1..] == t;
  }

  /** Without that condition normalising is not idempotent: with code "01",
      "5" becomes "015", which normalises again to "0115". */
  lemma NotIdempotentExample()
    ensures NormalizePhone("5", "01") == "015"
    ensures NormalizePhone("015", "01") == "0115"
  {
    NormalizeDigits("5", "01");
    assert "01" + "5" == "015";
    Renormalized();
  }

  /** Normalising "015" again with code "01" gives "0115". */
  lemma Renormalized()
    ensures NormalizePhone("015", "01") == "0115"
  {
    calc {
      NormalizePhone("015", "01");
    == { assert "015" == "0" + "15"; }
      NormalizePhone("0" + "15", "01");
    == { NormalizeZeroDigits("15", "01"); }
      NormalizePhone("15", "01");
    == { NormalizeDigits("15", "01"); assert "15"[..2] != "01"; }
      "01" + "15";
    }
  }

  /** With no country code the phone is the digits without their leading zeros. */
  lemma WithoutCountryCode(raw: string)
    ensures NormalizePhone(raw, "") == StripLeadingZeros(KeepDigits(raw))
  {
  }

  /** Digits are kept across a concatenation. */
  lemma {:induction false} KeepDigitsConcat(a: string, b: string)
    ensures KeepDigits(a + b) == KeepDigits(a) + KeepDigits(b)
  {
    if a != [] {
      assert (a + b)[1..] == a[1..] + b;
      KeepDigitsConcat(a[1..], b);
    } else {
      assert a + b == b;
    }
  }

  /** Digits on both sides of a non-digit are kept, joined. */
  lemma DigitsAroundSeparator(a: string, c: char, b: string)
    requires AllDigits(a) && AllDigits(b) && !IsDigit(c)
    ensures KeepDigits(a + [c] + b) == a + b
  {
    KeepDigitsConcat(a, [c] + b);
    KeepDigitsConcat([c], b);
    KeepDigitsOfDigits(a);
    KeepDigitsOfDigits(b);
    assert a + [c] + b == a + ([c] + b);
    assert KeepDigits([c]) == "";
  }

  /** The phones of the two data rows of the worked example: "123,456" and "0091234". */
  lemma ExampleCommaPhone()
    ensures NormalizePhone("123,456", "") == "123456"
  {
    assert AllDigits("123") && AllDigits("456");
    assert "123,456" == "123" + [','] + "456";
    DigitsAroundSeparator("123", ',', "456");
    assert AllDigits("123456") && "123456" == "123" + "456";
    NormalizeDigits("123456", "");
  }

  /** Leading zeros in front of a number that does not start with one are dropped. */
  lemma ZerosDropped(t: string)
    requires AllDigits(t) && t != [] && t[0] != '0'
    ensures NormalizePhone("00" + t, "") == t
  {
    var z := "00" + t;
    assert AllDigits(z);
    KeepDigitsOfDigits(z);
    assert z[1..][1..] == t;
  }

  lemma ExampleZerosPhone()
    ensures NormalizePhone("0091234", "") == "91234"
  {
    assert AllDigits("91234");
    assert "0091234" == "00" + "91234";
    ZerosDropped("91234");
  }
}
