/** The m:ss text of the timer level's remaining-time display, with C#'s integer
    division and remainder (both truncate toward zero), and its inverse. */
module Clock {
  import opened Options

  /** C#'s `a / b` for a positive divisor: the quotient truncated toward zero. */
  function TruncDiv(a: int, b: int): int
    requires b > 0
  {
    if a >= 0 then a / b else -((-a) / b)
  }

  /** C#'s `a % b` for a positive divisor: the remainder takes the sign of `a`. */
  function TruncMod(a: int, b: int): int
    requires b > 0
  {
    a - b * TruncDiv(a, b)
  }

  /** The minutes and seconds UpdateHUDTime shows for `seconds`. */
  function ClockParts(seconds: int): (r: (int, int))
    ensures r.0 * 60 + r.1 == seconds
    ensures -59 <= r.1 <= 59
    ensures seconds >= 0 ==> r.0 >= 0 && 0 <= r.1
    ensures seconds <= 0 ==> r.0 <= 0 && r.1 <= 0
  {
    (TruncDiv(seconds, 60), TruncMod(seconds, 60))
  }

  function DigitChar(d: int): char
    requires 0 <= d < 10
  {
    ('0' as int + d) as char
  }

  predicate IsDigit(c: char)
  {
    '0' <= c <= '9'
  }

  function DigitValue(c: char): int
  {
    c as int - '0' as int
  }

  /** Int32.ToString of a non-negative value: its decimal digits, no leading zero. */
  function NatToString(n: nat): (t: string)
    ensures |t| >= 1 && forall i | 0 <= i < |t| :: IsDigit(t[i])
    ensures |t| > 1 ==> t[0] != '0'
  {
    if n < 10 then [DigitChar(n)] else NatToString(n / 10) + [DigitChar(n % 10)]
  }

  /** Int32.ToString: a minus sign before the digits of a negative value. */
  function IntToString(i: int): string
  {
    if i < 0 then "-" + NatToString(-i) else NatToString(i)
  }

  /** The custom format "00": at least two digits, after a minus sign when negative. */
  function Pad2(i: int): (t: string)
    requires -100 < i < 100
    ensures i >= 0 ==> |t| == 2 && IsDigit(t[0]) && IsDigit(t[1])
  {
    var a := if i < 0 then -i else i;
    var digits := [DigitChar(a / 10), DigitChar(a % 10)];
    if i < 0 then "-" + digits else digits
  }

  /** UpdateHUDTime(seconds): `{minutes}:{secs:00}`. */
  function FormatClock(seconds: int): (t: string)
    ensures seconds >= 0 ==> |t| >= 4 && t[|t| - 3] == ':' && IsDigit(t[|t| - 2]) && IsDigit(t[|t| - 1])
    ensures seconds >= 0 ==> forall i | 0 <= i < |t| && i != |t| - 3 :: IsDigit(t[i])
  {
    var parts := ClockParts(seconds);
    IntToString(parts.0) + ":" + Pad2(parts.1)
  }

  // ----- Reading the text back -----

  /** The value of a non-empty run of decimal digits. */
  function ParseDigits(t: string): nat
  {
    if t == [] then 0
    else
      var d := DigitValue(t[|t| - 1]);
      ParseDigits(t[..|t| - 1]) * 10 + (if 0 <= d then d else 0)
  }

  /** A decimal integer with an optional leading minus sign. */
  function ParseInt(t: string): Option<int>
  {
    var neg := |t| > 0 && t[0] == '-';
    var body := if neg then t[1..] else t;
    if body == [] || exists i | 0 <= i < |body| :: !IsDigit(body[i]) then None
    else
      var v: int := ParseDigits(body);
      Some(if neg then -v else v)
  }

  /** The position of the first ':' in `t`, if any. */
  function FindColon(t: string): (r: Option<nat>)
    ensures r.Some? ==> r.value < |t| && t[r.value] == ':' && forall j | 0 <= j < r.value :: t[j] != ':'
    ensures r.None? ==> forall j | 0 <= j < |t| :: t[j] != ':'
  {
    if t == [] then None
    else if t[0] == ':' then Some(0)
    else
      var rest := FindColon(t[1..]);
      if rest.None? then None else Some(rest.value + 1)
  }

  /** A clock text `m:ss` back to seconds: the minutes, then at most a sign and two digits. */
  function ParseClock(t: string): Option<int>
  {
    match FindColon(t)
    case None => None
    case Some(k) =>
      var secs := t[k + 1..];
      var unsigned := if |secs| > 0 && secs[0] == '-' then secs[1..] else secs;
      if |unsigned| != 2 then None
      else
        match (ParseInt(t[..k]), ParseInt(secs))
        case (Some(m), Some(r)) => Some(m * 60 + r)
        case _ => None
  }

  // ----- Properties -----

  lemma {:induction false} ParseNatToString(n: nat)
    ensures ParseDigits(NatToString(n)) == n
  {
    if n >= 10 {
      var t := NatToString(n / 10) + [DigitChar(n % 10)];
      assert t[..|t| - 1] == NatToString(n / 10);
      ParseNatToString(n / 10);
    }
  }

  lemma ParseIntToString(i: int)
    ensures ParseInt(IntToString(i)) == Some(i)
  {
    var n: nat := if i < 0 then -i else i;
    var digits := NatToString(n);
    ParseNatToString(n);
    assert digits[0] != '-' by { assert IsDigit(digits[0]); }
    if i < 0 {
      assert ("-" + digits)[1..] == digits;
    }
  }

  lemma ParsePad2(i: int)
    requires -100 < i < 100
    ensures ParseInt(Pad2(i)) == Some(i)
  {
    var a := if i < 0 then -i else i;
    var c0, c1 := DigitChar(a / 10), DigitChar(a % 10);
    var digits := [c0, c1];
    assert DigitValue(c0) == a / 10 && DigitValue(c1) == a % 10;
    assert IsDigit(c0) && IsDigit(c1) && c0 != '-';
    assert ParseDigits([c0]) == a / 10 by {
      assert [c0][..0] == [];
    }
    assert ParseDigits(digits) == a by {
      assert digits[..1] == [c0];
    }
    if i < 0 {
      assert ("-" + digits)[1..] == digits;
    }
  }

  /** The displayed text determines the number of seconds: reading it back gives the
      value it was formatted from, for negative values too. */
  lemma FormatClockRoundTrip(seconds: int)
    ensures ParseClock(FormatClock(seconds)) == Some(seconds)
  {
    var parts := ClockParts(seconds);
    var m := IntToString(parts.0);
    IntToStringNoColon(parts.0);
    ColonSplit(m, Pad2(parts.1));
    ParseIntToString(parts.0);
    ParsePad2(parts.1);
  }

  /** Int32.ToString never writes a ':'. */
  lemma IntToStringNoColon(i: int)
    ensures forall j | 0 <= j < |IntToString(i)| :: IntToString(i)[j] != ':'
  {
    var digits := NatToString(if i < 0 then -i else i);
    assert forall j | 0 <= j < |digits| :: IsDigit(digits[j]);
  }

  /** A text with no ':' before the first one is split there into its two halves. */
  lemma ColonSplit(m: string, p: string)
    requires forall j | 0 <= j < |m| :: m[j] != ':'
    ensures var t := m + ":" + p;
      FindColon(t) == Some(|m|) && t[..|m|] == m && t[|m| + 1..] == p
  {
    var t := m + ":" + p;
    assert forall j | 0 <= j < |m| :: t[j] == m[j];
    assert t[|m|] == ':';
  }
}
