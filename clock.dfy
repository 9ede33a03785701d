/**
 * Rendering of second counts as `hh:mm:ss` clock text (`padNumber` and
 * `formatTime` in js/script.js), with a decoder used to show that the
 * rendering loses nothing: every count is read back exactly.
 */
module Clock {
  import opened Options

  predicate IsDigit(c: char) {
    '0' <= c <= '9'
  }

  predicate AllDigits(s: string) {
    forall i :: 0 <= i < |s| ==> IsDigit(s[i])
  }

  function DigitChar(d: nat): (c: char)
    requires d < 10
    ensures IsDigit(c)
  {
    ('0' as int + d) as char
  }

  function DigitValue(c: char): (d: nat)
    requires IsDigit(c)
    ensures d < 10
  {
    c as int - '0' as int
  }

  /** Decimal text of a natural number, as JavaScript's `toString()` writes it. */
  function NatToString(n: nat): (s: string)
    ensures |s| >= 1 && AllDigits(s)
    ensures (s[0] == '0') == (n == 0)
    decreases n
  {
    if n < 10 then [DigitChar(n)] else NatToString(n / 10) + [DigitChar(n % 10)]
  }

  /** Decimal text of an integer; a negative number gets a leading minus sign. */
  function IntToString(i: int): (s: string)
    ensures i >= 0 ==> s == NatToString(i)
    ensures i < 0 ==> s == "-" + NatToString(-i)
  {
    if i < 0 then "-" + NatToString(-i) else NatToString(i)
  }

  /** The number a string of decimal digits denotes (leading zeros allowed). */
  function Value(s: string): nat
    requires AllDigits(s)
  {
    if s == [] then 0 else Value(s[..|s| - 1]) * 10 + DigitValue(s[|s| - 1])
  }

  lemma {:induction false} ValueOfNatToString(n: nat)
    ensures Value(NatToString(n)) == n
    decreases n
  {
    if n >= 10 {
      var s := NatToString(n);
      assert s[..|s| - 1] == NatToString(n / 10);
      ValueOfNatToString(n / 10);
    }
  }

  lemma {:induction false} ValueIgnoresLeadingZero(s: string)
    requires AllDigits(s)
    ensures AllDigits("0" + s) && Value("0" + s) == Value(s)
    decreases |s|
  {
    var z := "0" + s;
    if s != [] {
      assert z[..|z| - 1] == "0" + s[..|s| - 1];
      ValueIgnoresLeadingZero(s[..|s| - 1]);
    }
  }

  /**
   * `padNumber`: the decimal text left-padded with '0' to at least two
   * characters. Nothing is ever cut off: the full decimal text is a suffix of
   * the result and the digits still denote `n`; a result longer than two
   * characters has no leading zero.
   */
  function PadNumber(n: nat): (r: string)
    ensures AllDigits(r) && Value(r) == n
    ensures |r| == if |NatToString(n)| < 2 then 2 else |NatToString(n)|
    ensures r[|r| - |NatToString(n)|..] == NatToString(n)
    ensures |r| == 2 || r[0] != '0'
  {
    var s := NatToString(n);
    ValueOfNatToString(n);
    if |s| < 2 then ValueIgnoresLeadingZero(s); "0" + s else s
  }

  /**
   * The hours, minutes and seconds `formatTime` computes with `Math.floor`
   * and `%`: the unique split of `seconds` with minutes and seconds below 60.
   */
  function ClockFields(seconds: nat): (r: (nat, nat, nat))
    ensures r.0 * 3600 + r.1 * 60 + r.2 == seconds
    ensures r.1 < 60 && r.2 < 60
  {
    var h := seconds / 3600;
    var rest := seconds % 3600;
    var m := rest / 60;
    var s := seconds % 60;
    assert rest == 60 * m + rest % 60;
    assert rest % 60 == s by {
      DivModUnique60(seconds / 60, s, 60 * h + m, rest % 60);
    }
    (h, m, s)
  }

  lemma ClockFieldsUnique(seconds: nat, h: nat, m: nat, s: nat)
    requires h * 3600 + m * 60 + s == seconds && m < 60 && s < 60
    ensures ClockFields(seconds) == (h, m, s)
  {
    var r := ClockFields(seconds);
    DivModUnique60(60 * h + m, s, 60 * r.0 + r.1, r.2);
    DivModUnique60(h, m, r.0, r.1);
  }

  lemma DivModUnique60(q1: nat, r1: nat, q2: nat, r2: nat)
    requires r1 < 60 && r2 < 60 && 60 * q1 + r1 == 60 * q2 + r2
    ensures q1 == q2 && r1 == r2
  {
  }


  /** The pieces of `t` between the ':' separators. */
  function Fields(t: string): (r: seq<string>)
    ensures |r| >= 1
  {
    if t == [] then [[]]
    else
      var rest := Fields(t[1..]);
      if t[0] == ':' then [[]] + rest else [[t[0]] + rest[0]] + rest[1..]
  }

  lemma {:induction false} FieldsWithoutSeparator(a: string)
    requires AllDigits(a)
    ensures Fields(a) == [a]
    decreases |a|
  {
    if a != [] {
      FieldsWithoutSeparator(a[1..]);
      assert [a[0]] + a[1..] == a;
    }
  }

  lemma {:induction false} FieldsAfterSeparator(a: string, b: string)
    requires AllDigits(a)
    ensures Fields(a + ":" + b) == [a] + Fields(b)
    decreases |a|
  {
    if a == [] {
      assert a + ":" + b == [':'] + b;
      assert ([':'] + b)[1..] == b;
    } else {
      assert (a + ":" + b)[1..] == a[1..] + ":" + b;
      FieldsAfterSeparator(a[1..], b);
      assert [a[0]] + a[1..] == a;
    }
  }

  /** Reads `hh:mm:ss` clock text back into seconds; `None` if it is not clock text. */
  function ParseClock(t: string): Option<nat> {
    var f := Fields(t);
    if |f| == 3 && AllDigits(f[0]) && AllDigits(f[1]) && AllDigits(f[2]) then
      Some(Value(f[0]) * 3600 + Value(f[1]) * 60 + Value(f[2]))
    else
      None
  }

  /** Three digit runs joined by ':' split back into those three runs. */
  lemma ThreeFields(h: string, m: string, s: string)
    requires AllDigits(h) && AllDigits(m) && AllDigits(s)
    ensures Fields(h + ":" + m + ":" + s) == [h, m, s]
  {
    assert h + ":" + m + ":" + s == h + ":" + (m + ":" + s);
    FieldsAfterSeparator(h, m + ":" + s);
    FieldsAfterSeparator(m, s);
    FieldsWithoutSeparator(s);
  }

  /**
   * The padded fields of an hour, minute and second count, joined by ':',
   * split back into digit fields of the `formatTime` shape.
   */
  lemma PaddedClockFields(hours: nat, minutes: nat, secs: nat)
    requires minutes < 60 && secs < 60
    ensures var f := Fields(PadNumber(hours) + ":" + PadNumber(minutes) + ":" + PadNumber(secs));
            && |f| == 3 && AllDigits(f[0]) && AllDigits(f[1]) && AllDigits(f[2])
            && |f[0]| >= 2 && (|f[0]| == 2 || f[0][0] != '0') && |f[1]| == 2 && |f[2]| == 2
            && Value(f[1]) < 60 && Value(f[2]) < 60
  {
    var h, m, s := PadNumber(hours), PadNumber(minutes), PadNumber(secs);
    NatToStringShort(minutes);
    NatToStringShort(secs);
    ThreeFields(h, m, s);
  }

  /** The same text reads back as the count the three fields stand for. */
  lemma PaddedClockParse(hours: nat, minutes: nat, secs: nat, total: nat)
    requires hours * 3600 + minutes * 60 + secs == total
    ensures ParseClock(PadNumber(hours) + ":" + PadNumber(minutes) + ":" + PadNumber(secs))
            == Some(total)
  {
    var h, m, s := PadNumber(hours), PadNumber(minutes), PadNumber(secs);
    ThreeFields(h, m, s);
    var f := Fields(h + ":" + m + ":" + s);
    assert f[0] == h && f[1] == m && f[2] == s;
  }

  /**
   * `formatTime`: `hh:mm:ss`, each field padded to two digits, hours
   * unbounded. The text is three digit fields: hours exactly two digits, or
   * more with no leading zero; minutes and seconds two digits below 60. It
   * loses nothing: `ParseClock` reads every count back,
   * however large the hour count grows. With `ClockFieldsUnique` this fixes
   * the text completely.
   */
  function FormatTime(seconds: nat): (t: string)
    ensures ParseClock(t) == Some(seconds)
    ensures var f := Fields(t);
            && |f| == 3 && AllDigits(f[0]) && AllDigits(f[1]) && AllDigits(f[2])
            && |f[0]| >= 2 && (|f[0]| == 2 || f[0][0] != '0') && |f[1]| == 2 && |f[2]| == 2
            && Value(f[1]) < 60 && Value(f[2]) < 60
  {
    var f := ClockFields(seconds);
    PaddedClockFields(f.0, f.1, f.2);
    PaddedClockParse(f.0, f.1, f.2, seconds);
    PadNumber(f.0) + ":" + PadNumber(f.1) + ":" + PadNumber(f.2)
  }

  /** Minutes and seconds take exactly two characters; hours at least two. */
  lemma FormatTimeShape(seconds: nat)
    ensures var t := FormatTime(seconds);
            |t| >= 8 && t[|t| - 6] == ':' && t[|t| - 3] == ':'
    ensures seconds >= 360000 ==> |FormatTime(seconds)| > 8
  {
    var f := ClockFields(seconds);
    var h, m, s := PadNumber(f.0), PadNumber(f.1), PadNumber(f.2);
    NatToStringShort(f.1);
    NatToStringShort(f.2);
    assert |m| == 2 && |s| == 2;
    var t := FormatTime(seconds);
    assert t == h + ":" + m + ":" + s;
    assert t[|t| - 6] == ':' && t[|t| - 3] == ':';
    if seconds >= 360000 {
      assert f.0 >= 100;
      NatToStringLength(f.0);
    }
  }

  lemma {:induction false} NatToStringLength(n: nat)
    requires n >= 100
    ensures |NatToString(n)| >= 3
  {
    assert n / 10 >= 10;
  }

  lemma {:induction false} NatToStringShort(n: nat)
    requires n < 100
    ensures |NatToString(n)| <= 2
  {
  }

  lemma FormatTimeZero()
    ensures FormatTime(0) == "00:00:00"
  {
    assert ClockFields(0) == (0, 0, 0);
  }
}
