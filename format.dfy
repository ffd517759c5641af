/**
 * The duration formatters of the data manager: formatDuration ("1h 5m") and
 * formatTime ("01:05:09"), with the decimal conversions they rely on
 * (`String(n)` and `padStart(2, '0')`) and readers that invert them.
 */
module Format {
  import opened Options

  predicate IsDigit(c: char) { '0' <= c <= '9' }

  predicate AllDigits(s: string) { forall i :: 0 <= i < |s| ==> IsDigit(s[i]) }

  function DigitChar(d: nat): (c: char)
    requires d < 10
    ensures IsDigit(c)
  {
    ('0' as int + d) as char
  }

  function DigitValue(c: char): nat
    requires IsDigit(c)
  {
    c as int - '0' as int
  }

  /** `String(n)` for a non-negative integer: its shortest decimal form. */
  function NatToString(n: nat): (s: string)
    ensures |s| >= 1 && AllDigits(s)
    ensures |s| > 1 ==> s[0] != '0'
  {
    if n < 10 then [DigitChar(n)]
    else
      var prefix := NatToString(n / 10);
      assert (prefix + [DigitChar(n % 10)])[0] == prefix[0];
      prefix + [DigitChar(n % 10)]
  }

  /** `String(i)` for any integer: a minus sign before the magnitude. */
  function IntToString(i: int): string {
    if i < 0 then "-" + NatToString(-i) else NatToString(i)
  }

  /** `s.padStart(2, '0')`. */
  function PadStart2(s: string): (p: string)
    ensures |p| == if |s| >= 2 then |s| else 2
  {
    if |s| >= 2 then s else seq(2 - |s|, _ => '0') + s
  }

  /** The value of a string of decimal digits (leading zeros allowed). */
  function DecimalValue(s: string): nat
    requires AllDigits(s)
  {
    if s == [] then 0 else DecimalValue(s[..|s| - 1]) * 10 + DigitValue(s[|s| - 1])
  }

  lemma {:induction false} DecimalValueOfNatToString(n: nat)
    ensures DecimalValue(NatToString(n)) == n
  {
    if n >= 10 {
      var s := NatToString(n);
      assert s[..|s| - 1] == NatToString(n / 10);
      DecimalValueOfNatToString(n / 10);
    }
  }

  lemma {:induction false} DecimalValueLeadingZero(s: string)
    requires AllDigits(s)
    ensures AllDigits(['0'] + s) && DecimalValue(['0'] + s) == DecimalValue(s)
  {
    if s != [] {
      var z := ['0'] + s;
      assert z[..|z| - 1] == ['0'] + s[..|s| - 1];
      DecimalValueLeadingZero(s[..|s| - 1]);
    }
  }

  /** Number of leading decimal digits. */
  function DigitRun(s: string): (k: nat)
    ensures k <= |s| && AllDigits(s[..k])
    ensures k < |s| ==> !IsDigit(s[k])
  {
    if s == [] || !IsDigit(s[0]) then 0
    else
      var k := 1 + DigitRun(s[1..]);
      assert s[..k] == [s[0]] + s[1..][..k - 1];
      k
  }

  lemma {:induction false} DigitRunOfDigits(d: string, rest: string)
    requires AllDigits(d)
    requires rest == [] || !IsDigit(rest[0])
    ensures DigitRun(d + rest) == |d|
  {
    if d != [] {
      assert (d + rest)[1..] == d[1..] + rest;
      DigitRunOfDigits(d[1..], rest);
    }
  }

  /** Reads a maximal run of decimal digits; None when there is none (a parse failure). */
  function ReadNat(s: string): Option<(nat, string)> {
    var k := DigitRun(s);
    if k == 0 then None else Some((DecimalValue(s[..k]), s[k..]))
  }

  lemma ReadNatOfDigits(d: string, rest: string)
    requires |d| >= 1 && AllDigits(d)
    requires rest == [] || !IsDigit(rest[0])
    ensures ReadNat(d + rest) == Some((DecimalValue(d), rest))
  {
    DigitRunOfDigits(d, rest);
    assert (d + rest)[..|d|] == d && (d + rest)[|d|..] == rest;
  }

  // ---------------------------------------------------------------------
  // formatDuration

  /**
   * `formatDuration(seconds)`: "0m" for a zero or negative count, otherwise
   * whole hours and the remaining whole minutes, the hours only when non-zero.
   */
  function FormatDuration(seconds: int): (s: string)
    ensures seconds <= 0 ==> s == "0m"
    ensures |s| >= 2 && s[|s| - 1] == 'm'
    ensures 'h' in s <==> seconds >= 3600
  {
    if seconds <= 0 then "0m"
    else
      var hours := seconds / 3600;
      var minutes := (seconds % 3600) / 60;
      if hours > 0 then
        var hs := NatToString(hours);
        assert (hs + "h " + NatToString(minutes) + "m")[|hs|] == 'h';
        hs + "h " + NatToString(minutes) + "m"
      else
        DigitsHaveNoH(NatToString(minutes));
        NatToString(minutes) + "m"
  }

  lemma DigitsHaveNoH(d: string)
    requires AllDigits(d)
    ensures 'h' !in d + "m"
  {
    forall i | 0 <= i < |d + "m"| ensures (d + "m")[i] != 'h' {
      if i < |d| { assert (d + "m")[i] == d[i] && IsDigit(d[i]); }
    }
  }

  /** Reads "<h>h <m>m" or "<m>m" back into (hours, minutes). */
  function ReadDuration(s: string): Option<(nat, nat)> {
    match ReadNat(s)
    case None => None
    case Some((a, rest)) =>
      if rest == "m" then Some((0, a))
      else if |rest| >= 2 && rest[..2] == "h " then
        match ReadNat(rest[2..])
        case None => None
        case Some((b, rest')) => if rest' == "m" then Some((a, b)) else None
      else None
  }

  /** The text printed for h hours and m minutes. */
  function DurationText(h: nat, m: nat): string {
    if h > 0 then NatToString(h) + "h " + NatToString(m) + "m" else NatToString(m) + "m"
  }

  lemma ReadMinutesText(m: nat)
    ensures ReadNat(NatToString(m) + "m") == Some((m, "m"))
  {
    DecimalValueOfNatToString(m);
    ReadNatOfDigits(NatToString(m), "m");
  }

  lemma ReadDurationOfHours(s: string, h: nat, rest: string, m: nat)
    requires ReadNat(s) == Some((h, rest))
    requires rest != "m" && |rest| >= 2 && rest[..2] == "h "
    requires ReadNat(rest[2..]) == Some((m, "m"))
    ensures ReadDuration(s) == Some((h, m))
  {
  }

  lemma ReadHoursField(h: nat, rest: string)
    requires rest != [] && rest[0] == 'h'
    ensures ReadNat(NatToString(h) + rest) == Some((h, rest))
  {
    DecimalValueOfNatToString(h);
    ReadNatOfDigits(NatToString(h), rest);
  }

  lemma HoursRest(ms: string)
    ensures var rest := "h " + ms + "m";
      rest != [] && rest[0] == 'h' && rest != "m" && |rest| >= 2 && rest[..2] == "h " && rest[2..] == ms + "m"
  {
  }

  lemma ReadHoursOfFields(hs: string, ms: string, h: nat, m: nat)
    requires ReadNat(hs + ("h " + ms + "m")) == Some((h, "h " + ms + "m"))
    requires ReadNat(ms + "m") == Some((m, "m"))
    ensures ReadDuration(hs + "h " + ms + "m") == Some((h, m))
  {
    var rest := "h " + ms + "m";
    HoursRest(ms);
    assert hs + "h " + ms + "m" == hs + rest;
    ReadDurationOfHours(hs + rest, h, rest, m);
  }

  lemma ReadHoursText(h: nat, m: nat)
    requires h > 0
    ensures ReadDuration(NatToString(h) + "h " + NatToString(m) + "m") == Some((h, m))
  {
    HoursRest(NatToString(m));
    ReadHoursField(h, "h " + NatToString(m) + "m");
    ReadMinutesText(m);
    ReadHoursOfFields(NatToString(h), NatToString(m), h, m);
  }

  lemma ReadDurationText(h: nat, m: nat)
    ensures ReadDuration(DurationText(h, m)) == Some((h, m))
  {
    if h > 0 {
      ReadHoursText(h, m);
    } else {
      ReadMinutesText(m);
    }
  }

  lemma ReadDurationOfFormat(seconds: int)
    requires seconds > 0
    ensures ReadDuration(FormatDuration(seconds)) == Some((seconds / 3600, (seconds % 3600) / 60))
  {
    var hours, minutes := seconds / 3600, (seconds % 3600) / 60;
    assert FormatDuration(seconds) == DurationText(hours, minutes);
    ReadDurationText(hours, minutes);
  }

  lemma SplitHoursMinutes(seconds: nat)
    ensures (seconds % 3600) / 60 < 60
    ensures var h, m := seconds / 3600, (seconds % 3600) / 60;
      h * 3600 + m * 60 <= seconds < h * 3600 + m * 60 + 60
  {
    var q, r := seconds / 3600, seconds % 3600;
    assert seconds == q * 3600 + r;
    var m, s := r / 60, r % 60;
    assert r == m * 60 + s;
  }

  /**
   * formatDuration loses only the seconds: the hours and minutes it prints
   * read back to a time within the minute before `seconds`.
   */
  lemma FormatDurationRoundTrip(seconds: int)
    requires seconds > 0
    ensures ReadDuration(FormatDuration(seconds)).Some?
    ensures var (h, m) := ReadDuration(FormatDuration(seconds)).value;
      m < 60 && h * 3600 + m * 60 <= seconds < h * 3600 + m * 60 + 60
  {
    ReadDurationOfFormat(seconds);
    SplitHoursMinutes(seconds);
  }

  // ---------------------------------------------------------------------
  // formatTime

  /** JavaScript's `%`: the remainder takes the sign of the dividend. */
  function JsRem(a: int, b: int): (r: int)
    requires b > 0
    ensures a >= 0 ==> r == a % b
    ensures -b < r < b
  {
    if a >= 0 then a % b else -((-a) % b)
  }

  /**
   * `formatTime(seconds)`: hours, minutes and seconds, each `String(v)`
   * padded to two characters and joined by ':'. `Math.floor` on the
   * quotients is Dafny's division by a positive divisor.
   */
  function FormatTime(seconds: int): (r: string)
    ensures seconds >= 0 ==> |r| >= 8 && r[|r| - 6] == ':' && r[|r| - 3] == ':'
    ensures seconds < 0 ==> |r| > 0 && r[0] == '-'
  {
    var h := seconds / 3600;
    var m := JsRem(seconds, 3600) / 60;
    var s := JsRem(seconds, 60);
    var hs, ms, ss := PadStart2(IntToString(h)), PadStart2(IntToString(m)), PadStart2(IntToString(s));
    if seconds >= 0 then
      TwoDigitField(m);
      TwoDigitField(s);
      hs + ":" + ms + ":" + ss
    else
      assert h < 0 && IntToString(h) == "-" + NatToString(-h);
      assert |IntToString(h)| >= 2 && hs == IntToString(h);
      assert (hs + ":" + ms + ":" + ss)[0] == hs[0];
      hs + ":" + ms + ":" + ss
  }

  /** A minute or second field below 100 prints as exactly two characters. */
  lemma TwoDigitField(v: int)
    requires 0 <= v < 100
    ensures |PadStart2(IntToString(v))| == 2
  {
    if v >= 10 {
      assert NatToString(v) == NatToString(v / 10) + [DigitChar(v % 10)];
    }
  }

  /** Reads a number followed by ':' and returns the number and what follows the ':'. */
  function ReadField(str: string): Option<(nat, string)> {
    match ReadNat(str)
    case None => None
    case Some((n, rest)) => if rest != [] && rest[0] == ':' then Some((n, rest[1..])) else None
  }

  /** Reads "H:MM:SS" back into a number of seconds. */
  function ReadClock(str: string): Option<int> {
    match ReadField(str)
    case None => None
    case Some((h, r1)) =>
      match ReadField(r1)
      case None => None
      case Some((m, r2)) =>
        match ReadNat(r2)
        case None => None
        case Some((s, r3)) => if r3 == [] then Some(h * 3600 + m * 60 + s) else None
  }

  lemma PaddedValue(n: nat)
    ensures |PadStart2(IntToString(n))| >= 1 && AllDigits(PadStart2(IntToString(n)))
    ensures DecimalValue(PadStart2(IntToString(n))) == n
  {
    var s := NatToString(n);
    DecimalValueOfNatToString(n);
    if |s| < 2 {
      assert PadStart2(s) == ['0'] + s;
      DecimalValueLeadingZero(s);
    }
  }

  lemma ReadFieldOfPadded(n: nat, rest: string)
    ensures ReadField(PadStart2(IntToString(n)) + ":" + rest) == Some((n, rest))
  {
    var d := PadStart2(IntToString(n));
    PaddedValue(n);
    assert d + ":" + rest == d + (":" + rest);
    ReadNatOfDigits(d, ":" + rest);
    assert (":" + rest)[1..] == rest;
  }

  lemma ReadClockOfReads(hs: string, r1: string, r2: string, h: nat, m: nat, s: nat)
    requires ReadField(hs) == Some((h, r1))
    requires ReadField(r1) == Some((m, r2))
    requires ReadNat(r2) == Some((s, []))
    ensures ReadClock(hs) == Some(h * 3600 + m * 60 + s)
  {
  }

  lemma ReadClockOfFields(h: nat, m: nat, s: nat)
    ensures ReadClock(PadStart2(IntToString(h)) + ":" + PadStart2(IntToString(m)) + ":" + PadStart2(IntToString(s)))
      == Some(h * 3600 + m * 60 + s)
  {
    var hs, mss, ss := PadStart2(IntToString(h)), PadStart2(IntToString(m)), PadStart2(IntToString(s));
    var r1 := mss + ":" + ss;
    var all := hs + ":" + mss + ":" + ss;
    assert all == hs + ":" + r1;
    ReadFieldOfPadded(h, r1);
    ReadFieldOfPadded(m, ss);
    PaddedValue(s);
    assert ss == ss + [];
    ReadNatOfDigits(ss, []);
    ReadClockOfReads(all, r1, ss, h, m, s);
  }

  /** `n * 60 + s` with `0 <= s < 60` leaves remainder `s`. */
  lemma RemOfSixty(x: int, n: int, s: int)
    requires x == n * 60 + s && 0 <= s < 60
    ensures x % 60 == s
  {
  }

  lemma SplitClock(seconds: nat)
    ensures var h, m, s := seconds / 3600, (seconds % 3600) / 60, seconds % 60;
      seconds == h * 3600 + m * 60 + s
  {
    var q, r := seconds / 3600, seconds % 3600;
    var m, s := r / 60, r % 60;
    assert r == m * 60 + s && 0 <= s < 60;
    RemOfSixty(seconds, q * 60 + m, s);
  }

  lemma ClockOfFields(total: nat, h: nat, m: nat, s: nat)
    requires total == h * 3600 + m * 60 + s
    ensures ReadClock(PadStart2(IntToString(h)) + ":" + PadStart2(IntToString(m)) + ":" + PadStart2(IntToString(s)))
      == Some(total)
  {
    ReadClockOfFields(h, m, s);
  }

  /** For a non-negative count JavaScript's `%` is Dafny's. */
  lemma FormatTimeOfNat(seconds: nat)
    ensures FormatTime(seconds) == PadStart2(IntToString(seconds / 3600)) + ":"
      + PadStart2(IntToString((seconds % 3600) / 60)) + ":" + PadStart2(IntToString(seconds % 60))
  {
    assert JsRem(seconds, 3600) == seconds % 3600 && JsRem(seconds, 60) == seconds % 60;
  }

  /** For a non-negative count the clock text reads back to the same number of seconds. */
  lemma FormatTimeRoundTrip(seconds: nat)
    ensures ReadClock(FormatTime(seconds)) == Some(seconds)
  {
    var h, m, s := seconds / 3600, (seconds % 3600) / 60, seconds % 60;
    FormatTimeOfNat(seconds);
    SplitClock(seconds);
    ClockOfFields(seconds, h, m, s);
  }
}
