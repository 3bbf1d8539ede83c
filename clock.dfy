/** The countdown display, `formatTime`
    (src/components/mrt-challenge-game.tsx:28-32): whole minutes and the
    remaining seconds, each written in decimal and left-padded with '0' to
    two characters, joined by ':'. */
module Clock {
  import opened Text

  predicate AllDigits(s: string) { forall i :: 0 <= i < |s| ==> IsDigit(s[i]) }

  function DigitChar(d: nat): (c: char)
    requires d < 10
    ensures IsDigit(c) && c as int - '0' as int == d
  {
    ('0' as int + d) as char
  }

  /** `String(n)` for a non-negative integer: decimal digits, no leading
      zero except for 0 itself. */
  function DecimalString(n: nat): (r: string)
    ensures |r| >= 1 && AllDigits(r)
    ensures |r| > 1 ==> r[0] != '0'
    ensures |r| == 1 <==> n < 10
  {
    if n < 10 then [DigitChar(n)] else DecimalString(n / 10) + [DigitChar(n % 10)]
  }

  /** The number a string of decimal digits denotes; reading it back. */
  function DigitsValue(s: string): nat
    requires AllDigits(s)
  {
    if s == [] then 0
    else DigitsValue(s[..|s| - 1]) * 10 + (s[|s| - 1] as int - '0' as int)
  }

  /** `padStart(width, fill)` with a one-character fill string. */
  function PadStart(s: string, width: nat, fill: char): (r: string)
    ensures |r| == if |s| >= width then |s| else width
    ensures r[|r| - |s|..] == s
    ensures forall i :: 0 <= i < |r| - |s| ==> r[i] == fill
  {
    if |s| >= width then s else seq(width - |s|, _ => fill) + s
  }

  /** `r` is a clock face showing `mins` and `secs`: digits, a colon and
      two digits, the part before the colon reading back as `mins` and the
      two after it as `secs`. */
  predicate ReadsAs(r: string, mins: nat, secs: nat) {
    && |r| >= 5 && r[|r| - 3] == ':'
    && AllDigits(r[..|r| - 3]) && AllDigits(r[|r| - 2..])
    && DigitsValue(r[..|r| - 3]) == mins
    && DigitsValue(r[|r| - 2..]) == secs
  }

  /** The clock reads back as the time it shows: the digits before the
      colon are the whole minutes, the last two digits are the seconds, and
      the text is exactly "MM:SS" for anything under 100 minutes. */
  function FormatTime(seconds: nat): (r: string)
    ensures ReadsAs(r, seconds / 60, seconds % 60)
    ensures |r| == 5 <==> seconds < 6000
  {
    MinutesAndSeconds(seconds);
    Face(seconds / 60, seconds % 60)
  }

  /** Minutes and seconds, each padded to two digits, around a colon; the
      text reads back as the two numbers. */
  function Face(mins: nat, secs: nat): (r: string)
    requires secs < 60
    ensures ReadsAs(r, mins, secs)
    ensures |r| == 5 <==> mins < 100
  {
    FaceLayout(mins, secs);
    Pad2(mins) + ":" + Pad2(secs)
  }

  /** A number in decimal, left-padded with '0' to two characters. */
  function Pad2(n: nat): string {
    PadStart(DecimalString(n), 2, '0')
  }

  /** Reading back a decimal rendering gives the number rendered. */
  lemma {:induction false} DecimalRoundTrip(n: nat)
    ensures DigitsValue(DecimalString(n)) == n
  {
    if n >= 10 {
      DecimalRoundTrip(n / 10);
      var r := DecimalString(n);
      assert r[..|r| - 1] == DecimalString(n / 10);
    }
  }

  lemma DecimalLengthTwo(n: nat)
    ensures |DecimalString(n)| <= 2 <==> n < 100
  {
    if n >= 10 {
      assert |DecimalString(n)| == |DecimalString(n / 10)| + 1;
    }
  }

  /** Leading zeros do not change the value of a digit string. */
  lemma {:induction false} LeadingZeros(z: string, s: string)
    requires AllDigits(s)
    requires forall i :: 0 <= i < |z| ==> z[i] == '0'
    ensures AllDigits(z + s) && DigitsValue(z + s) == DigitsValue(s)
  {
    if s == [] {
      assert z + s == z;
      AllZeros(z);
    } else {
      var n := |s| - 1;
      assert (z + s)[..|z + s| - 1] == z + s[..n];
      LeadingZeros(z, s[..n]);
    }
  }

  lemma {:induction false} AllZeros(z: string)
    requires forall i :: 0 <= i < |z| ==> z[i] == '0'
    ensures AllDigits(z) && DigitsValue(z) == 0
  {
    if z != [] {
      AllZeros(z[..|z| - 1]);
    }
  }

  /** Padding a decimal rendering with zeros keeps its value. */
  lemma PaddedRoundTrip(n: nat)
    ensures AllDigits(PadStart(DecimalString(n), 2, '0'))
    ensures DigitsValue(PadStart(DecimalString(n), 2, '0')) == n
  {
    var d := DecimalString(n);
    var p := PadStart(d, 2, '0');
    DecimalRoundTrip(n);
    assert p == p[..|p| - |d|] + d;
    LeadingZeros(p[..|p| - |d|], d);
  }

  /** A number padded to two digits: all digits, at least two of them,
      exactly two below 100, reading back as the number. */
  lemma Padded(n: nat) returns (p: string)
    ensures p == Pad2(n)
    ensures AllDigits(p) && |p| >= 2 && DigitsValue(p) == n
    ensures |p| == 2 <==> n < 100
  {
    p := Pad2(n);
    DecimalLengthTwo(n);
    PaddedRoundTrip(n);
  }

  /** "M:SS" pieces read back: the part before the last colon and the two
      digits after it. */
  lemma JoinReadsBack(m: string, s: string)
    requires AllDigits(m) && AllDigits(s) && |m| >= 2 && |s| == 2
    ensures var r := m + ":" + s;
      && |r| == |m| + 3 && r[|r| - 3] == ':'
      && r[..|r| - 3] == m && r[|r| - 2..] == s
  {
    var r := m + ":" + s;
    assert r[..|r| - 3] == m;
    assert r[|r| - 2..] == s;
  }

  lemma MinutesAndSeconds(seconds: nat)
    ensures seconds % 60 < 60
    ensures seconds / 60 < 100 <==> seconds < 6000
  {
  }

  lemma FaceLayout(mins: nat, secs: nat)
    requires secs < 60
    ensures ReadsAs(Pad2(mins) + ":" + Pad2(secs), mins, secs)
    ensures |Pad2(mins) + ":" + Pad2(secs)| == 5 <==> mins < 100
  {
    var m := Padded(mins);
    var s := Padded(secs);
    ClockFace(Pad2(mins) + ":" + Pad2(secs), m, s, mins, secs, mins < 100);
  }

  lemma ClockFace(r: string, m: string, s: string, mins: nat, secs: nat, short: bool)
    requires r == m + ":" + s
    requires AllDigits(m) && AllDigits(s) && |m| >= 2 && |s| == 2
    requires DigitsValue(m) == mins && DigitsValue(s) == secs < 60
    requires |m| == 2 <==> short
    ensures ReadsAs(r, mins, secs)
    ensures |r| == 5 <==> short
  {
    JoinReadsBack(m, s);
  }
}
