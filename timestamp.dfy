/**
 * Timestamp formatting shared by the three implementations: whole seconds
 * become HH:MM:SS by integer division and remainder, each field padded with
 * zeros to at least two digits; and the `s`-removal that Python applies to a
 * `begin` attribute before converting it to a number.
 */
module Timestamp {
  import opened Wrappers

  predicate IsDigit(c: char) {
    '0' <= c <= '9'
  }

  predicate AllDigits(s: string) {
    forall i :: 0 <= i < |s| ==> IsDigit(s[i])
  }

  /** The value of a string of decimal digits (leading zeros allowed). */
  function ValueOf(s: string): nat
    requires AllDigits(s)
  {
    if s == [] then 0 else ValueOf(s[..|s| - 1]) * 10 + (s[|s| - 1] as int - '0' as int)
  }

  /** The decimal representation of n, without leading zeros (str(n) in Python, n.toString() in JavaScript). */
  function Digits(n: nat): string {
    if n < 10 then [('0' as int + n) as char] else Digits(n / 10) + [('0' as int + n % 10) as char]
  }

  /** The decimal representation is a non-empty digit string without leading zero whose value is n. */
  lemma {:induction false} DigitsSpec(n: nat)
    ensures |Digits(n)| >= 1 && AllDigits(Digits(n))
    ensures |Digits(n)| > 1 ==> Digits(n)[0] != '0'
    ensures ValueOf(Digits(n)) == n
  {
    if n >= 10 {
      DigitsSpec(n / 10);
      var r := Digits(n);
      assert r[..|r| - 1] == Digits(n / 10);
    }
  }

  /** Decimal representations of different numbers differ. */
  lemma DigitsInjective(a: nat, b: nat)
    requires Digits(a) == Digits(b)
    ensures a == b
  {
    DigitsSpec(a);
    DigitsSpec(b);
  }

  /** Leading zeros do not change the value of a digit string. */
  lemma ValueOfLeadingZeros(z: string, s: string)
    requires AllDigits(z) && AllDigits(s) && forall i :: 0 <= i < |z| ==> z[i] == '0'
    ensures AllDigits(z + s) && ValueOf(z + s) == ValueOf(s)
  {
    assert AllDigits(z + s) by {
      forall i | 0 <= i < |z + s| ensures IsDigit((z + s)[i]) {
        if i < |z| { assert (z + s)[i] == z[i]; } else { assert (z + s)[i] == s[i - |z|]; }
      }
    }
    if s == [] {
      assert z + s == z;
      AllZeros(z);
    } else {
      assert (z + s)[..|z + s| - 1] == z + s[..|s| - 1];
      ValueOfLeadingZeros(z, s[..|s| - 1]);
    }
  }

  lemma AllZeros(z: string)
    requires forall i :: 0 <= i < |z| ==> z[i] == '0'
    ensures AllDigits(z) && ValueOf(z) == 0
  {
    if z != [] {
      AllZeros(z[..|z| - 1]);
    }
  }

  /** Padding to width two with zeros: Python's format spec `02`, JavaScript's padStart(2, "0"). */
  function Pad2(s: string): string {
    seq(if |s| < 2 then 2 - |s| else 0, _ => '0') + s
  }

  /**
   * Padding gives at least two characters, never pads past width two (a
   * string of two or more characters is unchanged, a one-character string
   * gains one '0'), and keeps the value of a digit string.
   */
  lemma Pad2Spec(s: string)
    ensures |Pad2(s)| >= 2 && |Pad2(s)| >= |s|
    ensures |s| >= 2 ==> Pad2(s) == s
    ensures |s| == 1 ==> Pad2(s) == "0" + s
    ensures AllDigits(s) ==> AllDigits(Pad2(s)) && ValueOf(Pad2(s)) == ValueOf(s)
  {
    if AllDigits(s) {
      ValueOfLeadingZeros(seq(if |s| < 2 then 2 - |s| else 0, _ => '0'), s);
    }
  }

  /**
   * Hours, minutes and seconds of a whole number of seconds: the only
   * decomposition with minutes and seconds below 60.
   */
  function Clock(n: nat): (t: (nat, nat, nat))
    ensures t.0 * 3600 + t.1 * 60 + t.2 == n
    ensures t.1 < 60 && t.2 < 60
  {
    var h := n / 3600;
    var m := (n % 3600) / 60;
    var s := n % 60;
    assert n % 3600 == m * 60 + s;
    (h, m, s)
  }

  /** Any decomposition with minutes and seconds below 60 is Clock's. */
  lemma ClockUnique(n: nat, h: nat, m: nat, s: nat)
    requires h * 3600 + m * 60 + s == n && m < 60 && s < 60
    ensures Clock(n) == (h, m, s)
  {
    var t := Clock(n);
    assert m * 60 + s < 3600;
    assert t.1 * 60 + t.2 < 3600;
    assert m * 60 + s == t.1 * 60 + t.2;
  }

  /** format_timestamp / formatTimestamp on whole seconds. */
  function Format(n: nat): string {
    var t := Clock(n);
    Pad2(Digits(t.0)) + ":" + Pad2(Digits(t.1)) + ":" + Pad2(Digits(t.2))
  }

  /**
   * Reads back a string of the shape H..H:MM:SS (at least two hour digits,
   * exactly two minute and second digits, minutes and seconds below 60).
   */
  function Parse(r: string): Option<nat> {
    if |r| < 8 || r[|r| - 3] != ':' || r[|r| - 6] != ':' then None
    else
      var hh, mm, ss := r[..|r| - 6], r[|r| - 5..|r| - 3], r[|r| - 2..];
      if !AllDigits(hh) || !AllDigits(mm) || !AllDigits(ss) then None
      else if ValueOf(mm) >= 60 || ValueOf(ss) >= 60 then None
      else Some(ValueOf(hh) * 3600 + ValueOf(mm) * 60 + ValueOf(ss))
  }

  /** A padded field is a digit string that reads back as the field's value. */
  lemma PaddedField(x: nat)
    ensures AllDigits(Pad2(Digits(x))) && ValueOf(Pad2(Digits(x))) == x
  {
    DigitsSpec(x);
    Pad2Spec(Digits(x));
  }

  /** A field below 60 pads to exactly two digits. */
  lemma SmallFieldWidth(x: nat)
    requires x < 60
    ensures |Pad2(Digits(x))| == 2
  {
    DigitsSpec(x);
    if x >= 10 {
      assert Digits(x) == Digits(x / 10) + [('0' as int + x % 10) as char];
    }
  }

  /**
   * The formatted timestamp reads back as the number of seconds it was made
   * from: the hours, minutes and seconds fields are h, m and s with
   * h*3600 + m*60 + s == n, minutes and seconds are below 60, and every
   * field has at least two digits.
   */
  lemma {:induction false} FormatRoundTrip(n: nat)
    ensures Parse(Format(n)) == Some(n)
  {
    var t := Clock(n);
    var hh, mm, ss := Pad2(Digits(t.0)), Pad2(Digits(t.1)), Pad2(Digits(t.2));
    PaddedField(t.0); PaddedField(t.1); PaddedField(t.2);
    SmallFieldWidth(t.1);
    SmallFieldWidth(t.2);
    Fields(hh, mm, ss);
  }

  /** Every field of a formatted timestamp has at least two characters, and minutes and seconds exactly two. */
  lemma FormatShape(n: nat)
    ensures var r := Format(n); |r| >= 8 && r[|r| - 3] == ':' && r[|r| - 6] == ':'
    ensures n < 360000 ==> |Format(n)| == 8
  {
    var t := Clock(n);
    DigitsSpec(t.0);
    Pad2Spec(Digits(t.0));
    SmallFieldWidth(t.1);
    SmallFieldWidth(t.2);
    if n < 360000 {
      assert t.0 < 100;
      if t.0 >= 10 {
        assert Digits(t.0) == Digits(t.0 / 10) + [('0' as int + t.0 % 10) as char];
      }
    }
  }

  /**
   * The hour field is the decimal hour count, padded with one '0' only
   * when it has a single digit: 100 hours or more are never cut or padded.
   */
  lemma FormatHours(n: nat)
    ensures var r, h := Format(n), Clock(n).0;
      r[..|r| - 6] == (if h < 10 then "0" + Digits(h) else Digits(h))
  {
    var t := Clock(n);
    SmallFieldWidth(t.1);
    SmallFieldWidth(t.2);
    Fields(Pad2(Digits(t.0)), Pad2(Digits(t.1)), Pad2(Digits(t.2)));
    Pad2Spec(Digits(t.0));
    if t.0 >= 10 {
      DigitsAtLeastTwo(t.0);
    }
  }

  /** 360000 seconds are 100 hours: the hour field keeps its three digits. */
  lemma FormatHundredHours()
    ensures Format(360000) == "100:00:00"
  {
    assert Clock(360000) == (100, 0, 0);
    assert Digits(100) == "100" && Digits(0) == "0";
    assert Pad2("100") == "100" && Pad2("0") == "00";
  }

  /** The three fields of H:MM:SS when the minute and second fields have two characters each. */
  lemma Fields(hh: string, mm: string, ss: string)
    requires |mm| == 2 && |ss| == 2
    ensures var r := hh + ":" + mm + ":" + ss;
      r[..|r| - 6] == hh && r[|r| - 5..|r| - 3] == mm && r[|r| - 2..] == ss
  {
    var r := hh + ":" + mm + ":" + ss;
    assert |r| - 6 == |hh|;
    assert r == hh + (":" + mm + ":" + ss);
  }

  /** A number of 10 or more has at least two decimal digits. */
  lemma DigitsAtLeastTwo(n: nat)
    requires n >= 10
    ensures |Digits(n)| >= 2
  {
    DigitsSpec(n / 10);
  }

  /** Formatting is injective: different second counts give different timestamps. */
  lemma FormatInjective(a: nat, b: nat)
    requires Format(a) == Format(b)
    ensures a == b
  {
    FormatRoundTrip(a);
    FormatRoundTrip(b);
  }

  /** 0, 65 and 3661 seconds format as 00:00:00, 00:01:05 and 01:01:01. */
  lemma FormatExamples()
    ensures Format(0) == "00:00:00"
    ensures Format(65) == "00:01:05"
    ensures Format(3661) == "01:01:01"
  {
    assert Digits(0) == "0" && Digits(1) == "1" && Digits(5) == "5";
    assert Pad2("0") == "00" && Pad2("1") == "01" && Pad2("5") == "05";
    assert Clock(0) == (0, 0, 0);
    assert Clock(65) == (0, 1, 5);
    assert Clock(3661) == (1, 1, 1);
  }

  /** begin.replace("s", ""): every 's' removed, every other character kept in order. */
  function RemoveS(b: string): string {
    if b == [] then [] else (if b[0] == 's' then [] else [b[0]]) + RemoveS(b[1..])
  }

  /**
   * After removal no 's' is left, every other character of b is still
   * there, nothing else is added, and a value without 's' is unchanged.
   */
  lemma {:induction false} RemoveSSpec(b: string)
    ensures 's' !in RemoveS(b) && |RemoveS(b)| <= |b|
    ensures forall c :: c != 's' ==> (c in RemoveS(b) <==> c in b)
    ensures 's' !in b ==> RemoveS(b) == b
  {
    if b != [] {
      RemoveSSpec(b[1..]);
      assert b == [b[0]] + b[1..];
    }
  }

  /** Removal works piece by piece: the pieces are processed independently and kept in order. */
  lemma {:induction false} RemoveSAppend(a: string, b: string)
    ensures RemoveS(a + b) == RemoveS(a) + RemoveS(b)
  {
    if a == [] {
      assert a + b == b;
    } else {
      var p, ab := if a[0] == 's' then [] else [a[0]], a + b;
      assert ab[0] == a[0] && ab[1..] == a[1..] + b;
      calc {
        RemoveS(ab);
        p + RemoveS(a[1..] + b);
        { RemoveSAppend(a[1..], b); }
        p + (RemoveS(a[1..]) + RemoveS(b));
        p + RemoveS(a[1..]) + RemoveS(b);
      }
    }
  }

  /**
   * On one character, an 's' disappears and any other character stays.
   * With RemoveSAppend this determines RemoveS on every string.
   */
  lemma RemoveSChar(c: char)
    ensures RemoveS([c]) == (if c == 's' then [] else [c])
  {
    assert [c][1..] == [];
  }
}
