/**
 * `formatTime`: milliseconds rendered as `m:ss` with JavaScript's arithmetic
 * (`Math.floor` division, truncating `%`, `padStart(2, '0')`).
 */
module Clock {
  import opened Wrappers

  function DigitChar(d: nat): (c: char)
    requires d < 10
    ensures '0' <= c <= '9'
  {
    "0123456789"[d]
  }

  predicate IsDigit(c: char)
  {
    '0' <= c <= '9'
  }

  function DigitValue(c: char): (d: nat)
    requires IsDigit(c)
    ensures d < 10
  {
    (c - '0') as nat
  }

  /** Decimal digits of a natural number, without leading zeros. */
  function NatToString(k: nat): (s: string)
    ensures 1 <= |s|
    ensures forall i :: 0 <= i < |s| ==> IsDigit(s[i])
    ensures k < 10 <==> |s| == 1
  {
    if k < 10 then [DigitChar(k)] else NatToString(k / 10) + [DigitChar(k % 10)]
  }

  /** `Number.prototype.toString()` on an integer: a minus sign for negatives, then the decimal digits. */
  function IntToString(i: int): (s: string)
    ensures i >= 0 ==> s == NatToString(i)
    ensures i < 0 ==> |s| >= 2 && s[0] == '-' && s[1..] == NatToString(-i)
  {
    if i < 0 then "-" + NatToString(-i) else NatToString(i)
  }

  /** `padStart(2, '0')`. */
  function PadStart2(s: string): (r: string)
    ensures |r| >= 2
    ensures |s| >= 2 ==> r == s
    ensures |s| < 2 ==> |r| == 2
    ensures |s| < 2 ==> r[|r| - |s|..] == s && forall i :: 0 <= i < |r| - |s| ==> r[i] == '0'
    decreases 2 - |s|
  {
    if |s| >= 2 then s else PadStart2("0" + s)
  }

  /** Division rounding toward zero, the quotient that JavaScript's `%` goes with. */
  function TruncQuot(a: int, b: int): (q: int)
    requires b > 0
  {
    if a >= 0 then a / b else -((-a) / b)
  }

  /** JavaScript's `%`: the remainder of division rounding toward zero, with the sign of the dividend. */
  function TruncRem(a: int, b: int): (r: int)
    requires b > 0
    ensures a == b * TruncQuot(a, b) + r
    ensures a >= 0 ==> 0 <= r < b
    ensures a < 0 ==> -b < r <= 0
  {
    if a >= 0 then a % b else -((-a) % b)
  }

  /**
   * `formatTime(ms)`. The display is never shorter than `m:ss`; for a non-negative time it
   * is digits, a colon, and exactly two more digits.
   */
  function FormatTime(ms: int): (display: string)
    ensures |display| >= 4
    ensures ms >= 0 ==> display[|display| - 3] == ':'
    ensures ms >= 0 ==> forall i :: 0 <= i < |display| && i != |display| - 3 ==> IsDigit(display[i])
  {
    var totalSeconds := ms / 1000;  // Math.floor(ms / 1000): Dafny's division by a positive divisor is floor division
    var minutes := totalSeconds / 60;
    var seconds := TruncRem(totalSeconds, 60);
    var display := IntToString(minutes) + ":" + PadStart2(IntToString(seconds));
    if ms >= 0 then
      SecondsField(ms);
      var sec := totalSeconds % 60;
      DisplayDigits(NatToString(minutes), [DigitChar(sec / 10), DigitChar(sec % 10)]);
      display
    else display
  }

  /** Digits, a colon and two more digits: the colon sits third from the end and everything else is a digit. */
  lemma DisplayDigits(m: string, d: string)
    requires forall i :: 0 <= i < |m| ==> IsDigit(m[i])
    requires |d| == 2 && IsDigit(d[0]) && IsDigit(d[1])
    ensures var display := m + ":" + d;
      && display[|display| - 3] == ':'
      && forall i :: 0 <= i < |display| && i != |display| - 3 ==> IsDigit(display[i])
  {
    var display := m + ":" + d;
    forall i | 0 <= i < |display| && i != |display| - 3
      ensures IsDigit(display[i])
    {
      if i < |m| {
        assert display[i] == m[i];
      }
    }
  }

  /** Reads back the digits of a decimal numeral. */
  function ParseNat(s: string): (r: Option<nat>)
    ensures r.Some? ==> |s| >= 1
  {
    if s == [] || !IsDigit(s[|s| - 1]) then None
    else if |s| == 1 then Some(DigitValue(s[0]))
    else match ParseNat(s[..|s| - 1])
      case None => None
      case Some(v) => Some(10 * v + DigitValue(s[|s| - 1]))
  }

  /** Reads `m:ss` back into minutes and seconds. */
  function ParseTime(s: string): (r: Option<(nat, nat)>)
    ensures r.Some? ==> |s| >= 4 && s[|s| - 3] == ':'
  {
    if |s| < 4 || s[|s| - 3] != ':' then None
    else match (ParseNat(s[..|s| - 3]), ParseNat(s[|s| - 2..]))
      case (Some(m), Some(sec)) => Some((m, sec))
      case _ => None
  }

  /** A numeral of two or more digits never starts with a zero. */
  lemma {:induction false} NatToStringNoLeadingZero(k: nat)
    ensures k >= 10 ==> NatToString(k)[0] != '0'
  {
    if k >= 100 {
      NatToStringNoLeadingZero(k / 10);
    } else if k >= 10 {
      assert NatToString(k / 10) == [DigitChar(k / 10)];
    }
  }

  /** Only a string of digits reads as a numeral. */
  lemma {:induction false} ParseNatDigits(s: string)
    ensures ParseNat(s).Some? ==> forall i :: 0 <= i < |s| ==> IsDigit(s[i])
  {
    if |s| > 1 && ParseNat(s).Some? {
      ParseNatDigits(s[..|s| - 1]);
      assert forall i :: 0 <= i < |s| - 1 ==> s[i] == s[..|s| - 1][i];
    }
  }

  /** Reads back what `IntToString` writes: an optional minus sign, then a decimal numeral. */
  function ParseInt(s: string): (r: Option<int>)
    ensures r.Some? && r.value < 0 ==> |s| >= 2 && s[0] == '-' && IsDigit(s[1])
  {
    if s != [] && s[0] == '-' then
      ParseNatDigits(s[1..]);
      match ParseNat(s[1..])
      case None => None
      case Some(v) => Some(-(v as int))
    else
      match ParseNat(s)
      case None => None
      case Some(v) => Some(v as int)
  }

  /** Every integer, negative ones included, reads back from its decimal text. */
  lemma IntToStringRoundTrip(i: int)
    ensures ParseInt(IntToString(i)) == Some(i)
  {
    var s := IntToString(i);
    if i < 0 {
      ParseNatToString(-i);
      assert s != [] && s[0] == '-' && ParseNat(s[1..]) == Some(-i);
    } else {
      ParseNatToString(i);
    }
  }

  lemma {:induction false} ParseNatToString(k: nat)
    ensures ParseNat(NatToString(k)) == Some(k)
  {
    var s := NatToString(k);
    if k >= 10 {
      ParseNatToString(k / 10);
      assert s[..|s| - 1] == NatToString(k / 10);
    }
  }

  /** The displayed seconds always take exactly two digits between 00 and 59. */
  lemma SecondsField(ms: int)
    requires ms >= 0
    ensures var sec := (ms / 1000) % 60;
      PadStart2(IntToString(TruncRem(ms / 1000, 60))) == [DigitChar(sec / 10), DigitChar(sec % 10)]
  {
    var sec := (ms / 1000) % 60;
    if sec >= 10 {
      assert NatToString(sec) == NatToString(sec / 10) + [DigitChar(sec % 10)];
    }
  }

  /** Whole minutes of whole seconds are whole minutes of milliseconds. */
  lemma MinutesOfMilliseconds(ms: int)
    requires ms >= 0
    ensures (ms / 1000) / 60 == ms / 60000
    ensures (ms / 60000) * 60 + (ms / 1000) % 60 == ms / 1000
  {
    var t, a := ms / 1000, ms % 1000;
    var m, b := t / 60, t % 60;
    assert ms == 1000 * t + a;
    assert t == 60 * m + b;
    assert ms == 60000 * m + (1000 * b + a);
    assert 0 <= 1000 * b + a < 60000;
    DivUnique(ms, m, 1000 * b + a);
  }

  lemma DivUnique(x: int, q: int, r: int)
    requires x == 60000 * q + r && 0 <= r < 60000
    ensures x / 60000 == q
  {
  }

  /**
   * For a non-negative time, the display is the minutes `ms div 60000` in decimal,
   * a colon, and the seconds `(ms div 1000) mod 60` as exactly two digits.
   */
  lemma FormatTimeShape(ms: int)
    requires ms >= 0
    ensures var minutes, sec := ms / 60000, (ms / 1000) % 60;
      FormatTime(ms) == NatToString(minutes) + ":" + [DigitChar(sec / 10), DigitChar(sec % 10)]
  {
    MinutesOfMilliseconds(ms);
    SecondsField(ms);
  }

  /** Two digits read back as their value. */
  lemma ParseTwoDigits(sec: nat)
    requires sec < 100
    ensures ParseNat([DigitChar(sec / 10), DigitChar(sec % 10)]) == Some(sec)
  {
    var digits := [DigitChar(sec / 10), DigitChar(sec % 10)];
    assert digits[..1] == [DigitChar(sec / 10)];
  }

  /** A string `m:dd` reads back as the values of its two parts. */
  lemma ParseJoined(m: string, d: string, minutes: nat, sec: nat)
    requires ParseNat(m) == Some(minutes) && ParseNat(d) == Some(sec) && |d| == 2
    ensures ParseTime(m + ":" + d) == Some((minutes, sec))
  {
    var s := m + ":" + d;
    assert |m| >= 1 && |s| == |m| + 3 && s[|m|] == ':';
    assert ParseNat(s[..|m|]) == Some(minutes) by {
      assert s[..|m|] == m;
    }
    assert ParseNat(s[|m| + 1..]) == Some(sec) by {
      assert s[|m| + 1..] == d;
    }
  }

  /** Reading `m:ss` back gives the minutes and the seconds it was built from. */
  lemma ParseDisplay(minutes: nat, sec: nat)
    requires sec < 60
    ensures ParseTime(NatToString(minutes) + ":" + [DigitChar(sec / 10), DigitChar(sec % 10)]) == Some((minutes, sec))
  {
    ParseNatToString(minutes);
    ParseTwoDigits(sec);
    ParseJoined(NatToString(minutes), [DigitChar(sec / 10), DigitChar(sec % 10)], minutes, sec);
  }

  /**
   * Reading a non-negative time's display back recovers its minutes and seconds,
   * the seconds are below 60, and together they give the whole seconds elapsed.
   */
  lemma FormatTimeRoundTrip(ms: int)
    requires ms >= 0
    ensures var minutes, sec := ms / 60000, (ms / 1000) % 60;
      && ParseTime(FormatTime(ms)) == Some((minutes, sec))
      && sec < 60 && minutes * 60 + sec == ms / 1000
  {
    MinutesOfMilliseconds(ms);
    FormatTimeShape(ms);
    ParseDisplay(ms / 60000, (ms / 1000) % 60);
  }

  /** A minute and five seconds shows as `1:05`. */
  lemma FormatTimeMinute()
    ensures FormatTime(65000) == "1:05"
  {
    assert 65000 / 60000 == 1;
    assert 65000 / 1000 == 65;
    assert 65 % 60 == 5;
    FormatTimeShape(65000);
    assert NatToString(1) == "1" && DigitChar(0) == '0' && DigitChar(5) == '5';
  }

  /** A clock read 1.5 s before the start time shows as `-1:-2`: floor division, then a truncating remainder. */
  lemma FormatTimeNegative()
    ensures FormatTime(-1500) == "-1:-2"
  {
    assert -1500 / 1000 == -2 && -2 / 60 == -1 && TruncRem(-2, 60) == -2;
    assert IntToString(-1) == "-1" && IntToString(-2) == "-2";
  }
}
