/**
 The countdown display of the ordering screen: a number of seconds written
 as minutes and seconds, each left-padded with zeros to two digits.
 */
module ClockText {
  import opened SessionClock
  import opened Records

  predicate IsDigit(c: char) {
    '0' <= c <= '9'
  }

  predicate AllDigits(s: string) {
    forall i :: 0 <= i < |s| ==> IsDigit(s[i])
  }

  function DigitChar(d: nat): (c: char)
    requires d < 10
    ensures IsDigit(c)
  {
    ('0' as int + d) as char
  }

  function DigitValue(c: char): (d: nat)
    requires IsDigit(c)
    ensures d < 10
  {
    c as int - '0' as int
  }

  /** The number a string of decimal digits denotes. */
  function DigitsValue(s: string): nat
    requires AllDigits(s)
  {
    if |s| == 0 then 0 else DigitsValue(s[..|s| - 1]) * 10 + DigitValue(s[|s| - 1])
  }

  /**
   `n.toString()` for a non-negative integer: its decimal digits, with no
   leading zero; one digit below ten, two below a hundred.
   */
  function Decimal(n: nat): (r: string)
    ensures 1 <= |r| && AllDigits(r)
    ensures |r| > 1 ==> r[0] != '0'
    ensures n < 10 ==> |r| == 1
    ensures n < 100 ==> |r| <= 2
    ensures n >= 10 ==> |r| >= 2
  {
    if n < 10 then [DigitChar(n)] else Decimal(n / 10) + [DigitChar(n % 10)]
  }

  /** Reading back the digits of `Decimal(n)` gives `n`. */
  lemma {:induction false} DecimalValue(n: nat)
    ensures DigitsValue(Decimal(n)) == n
  {
    if n >= 10 {
      var prefix := Decimal(n / 10);
      assert (prefix + [DigitChar(n % 10)])[..|prefix|] == prefix;
      DecimalValue(n / 10);
    }
  }

  /** `n` copies of the character `c`. */
  function Repeat(c: char, n: nat): (r: string)
    ensures |r| == n
    ensures forall i :: 0 <= i < n ==> r[i] == c
  {
    seq(n, _ => c)
  }

  /** `s.padStart(width, fill)` with a one-character fill. */
  function PadStart(s: string, width: nat, fill: char): (r: string)
    ensures |s| >= width ==> r == s
    ensures |s| < width ==> |r| == width && r[width - |s|..] == s
    ensures forall i :: 0 <= i < |r| - |s| ==> r[i] == fill
  {
    if |s| >= width then s else Repeat(fill, width - |s|) + s
  }

  /** A leading zero does not change the number a digit string denotes. */
  lemma {:induction false} LeadingZeroValue(s: string)
    requires AllDigits(s)
    ensures AllDigits(['0'] + s)
    ensures DigitsValue(['0'] + s) == DigitsValue(s)
    decreases |s|
  {
    if |s| > 0 {
      var init := s[..|s| - 1];
      assert (['0'] + s)[..|s|] == ['0'] + init;
      LeadingZeroValue(init);
    }
  }

  /** Any number of leading zeros does not change the number a digit string denotes. */
  lemma {:induction false} LeadingZerosValue(z: nat, s: string)
    requires AllDigits(s)
    ensures AllDigits(Repeat('0', z) + s)
    ensures DigitsValue(Repeat('0', z) + s) == DigitsValue(s)
  {
    if z > 0 {
      LeadingZerosValue(z - 1, s);
      var rest := Repeat('0', z - 1) + s;
      assert Repeat('0', z) == ['0'] + Repeat('0', z - 1);
      assert Repeat('0', z) + s == ['0'] + rest;
      LeadingZeroValue(rest);
    } else {
      assert Repeat('0', z) + s == s;
    }
  }

  /** Padding a digit string with zeros keeps it a digit string of the same value. */
  lemma PadStartValue(s: string, width: nat)
    requires AllDigits(s)
    ensures AllDigits(PadStart(s, width, '0'))
    ensures DigitsValue(PadStart(s, width, '0')) == DigitsValue(s)
  {
    if |s| < width {
      LeadingZerosValue(width - |s|, s);
    }
  }

  /** Whole minutes and leftover seconds; `Math.floor` and `%` agree with these on non-negative input. */
  function ClockFields(seconds: nat): (r: (nat, nat))
    ensures r.0 * 60 + r.1 == seconds
    ensures r.1 < 60
  {
    (seconds / 60, seconds % 60)
  }

  /**
   The countdown text: zero-padded minutes, a colon, zero-padded seconds.
   The seconds field is exactly two digits; the minutes field at least two.
   */
  function FormatTime(seconds: nat): (r: string)
    ensures |r| >= 5 && r[|r| - 3] == ':'
    ensures AllDigits(r[..|r| - 3]) && AllDigits(r[|r| - 2..])
  {
    var (mins, secs) := ClockFields(seconds);
    var m, s := PadStart(Decimal(mins), 2, '0'), PadStart(Decimal(secs), 2, '0');
    PadStartValue(Decimal(mins), 2);
    PadStartValue(Decimal(secs), 2);
    assert (m + ":" + s)[..|m|] == m;
    assert (m + ":" + s)[|m| + 1..] == s;
    m + ":" + s
  }

  /** Reads an `mm:ss` countdown text back into seconds; None for anything else. */
  function ParseClock(t: string): Option<nat>
  {
    if |t| < 5 || t[|t| - 3] != ':' then None
    else
      var m, s := t[..|t| - 3], t[|t| - 2..];
      if AllDigits(m) && AllDigits(s) && DigitsValue(s) < 60
      then Some(DigitsValue(m) * 60 + DigitsValue(s))
      else None
  }

  /** Joining two digit fields with a colon reads back as minutes and seconds. */
  lemma ParseJoined(m: string, s: string)
    requires AllDigits(m) && |m| >= 2
    requires AllDigits(s) && |s| == 2 && DigitsValue(s) < 60
    ensures ParseClock(m + ":" + s) == Some(DigitsValue(m) * 60 + DigitsValue(s))
  {
    var t := m + ":" + s;
    assert |t| == |m| + 3 && t[|t| - 3] == ':';
    assert t[..|t| - 3] == m;
    assert t[|t| - 2..] == s;
  }

  /** The countdown text loses nothing: it reads back as the seconds it shows. */
  lemma FormatTimeRoundTrip(seconds: nat)
    ensures ParseClock(FormatTime(seconds)) == Some(seconds)
  {
    var mins, secs := seconds / 60, seconds % 60;
    PadStartValue(Decimal(mins), 2);
    PadStartValue(Decimal(secs), 2);
    DecimalValue(mins);
    DecimalValue(secs);
    var m, s := PadStart(Decimal(mins), 2, '0'), PadStart(Decimal(secs), 2, '0');
    assert FormatTime(seconds) == m + ":" + s;
    ParseJoined(m, s);
    assert DigitsValue(m) == mins && DigitsValue(s) == secs;
  }

  /** Distinct second counts never show the same text. */
  lemma FormatTimeInjective(a: nat, b: nat)
    requires FormatTime(a) == FormatTime(b)
    ensures a == b
  {
    FormatTimeRoundTrip(a);
    FormatTimeRoundTrip(b);
  }

  /** Below 100 minutes the text is exactly `mm:ss`. */
  lemma FormatTimeWidth(seconds: nat)
    requires seconds < 6000
    ensures |FormatTime(seconds)| == 5
  {
    var (mins, secs) := ClockFields(seconds);
    assert mins < 100;
  }
}
