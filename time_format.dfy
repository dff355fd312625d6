/**
 * The `MM:SS` display of a clock (`formatTime` in chess-clock-app.tsx), the decimal numerals
 * and the `padStart` padding it is built from, and a parser that reads a display back into
 * seconds. The parser is the display's inverse: every display parses back to the number of
 * seconds it was made from, so no two times share a display.
 */
module TimeFormat {
  import opened Wrappers

  predicate IsDigit(c: char) {
    '0' <= c <= '9'
  }

  /** Every character of `s` is a decimal digit (checked from the last character back, the
      order in which ValueOf reads them). */
  predicate AllDigits(s: string)
    decreases |s|
  {
    s == [] || (IsDigit(s[|s| - 1]) && AllDigits(s[..|s| - 1]))
  }

  function DigitValue(c: char): nat
    requires IsDigit(c)
  {
    (c as int) - ('0' as int)
  }

  function DigitChar(d: nat): (c: char)
    requires d < 10
    ensures IsDigit(c) && DigitValue(c) == d
  {
    (('0' as int) + d) as char
  }

  /** The numeral `n.toString()` writes for a non-negative integer: decimal digits, no sign,
      no leading zero, one digit for 0..9, two for 10..99, more from 100 on. */
  function Decimal(n: nat): (s: string)
    ensures |s| >= 1 && AllDigits(s)
    ensures s[0] == '0' <==> n == 0
    ensures |s| == 1 <==> n < 10
    ensures |s| <= 2 <==> n < 100
    decreases n
  {
    if n < 10 then [DigitChar(n)] else Decimal(n / 10) + [DigitChar(n % 10)]
  }

  /** The number a string of decimal digits denotes, most significant digit first. */
  function ValueOf(s: string): nat
    requires AllDigits(s)
    decreases |s|
  {
    if s == [] then 0 else 10 * ValueOf(s[..|s| - 1]) + DigitValue(s[|s| - 1])
  }

  /** `s.padStart(target, fill)` for a one-character fill: copies of `fill` go in front of `s`
      until the string is `target` long; a string already that long is returned as it is. */
  function PadStart(s: string, target: nat, fill: char): (r: string)
    ensures |r| == if |s| >= target then |s| else target
    decreases target - |s|
  {
    if |s| >= target then s else PadStart([fill] + s, target, fill)
  }

  /** One field of the display: `n.toString().padStart(2, '0')`. */
  function PaddedDecimal(n: nat): (r: string)
    ensures |r| >= 2 && (|r| == 2 <==> n < 100)
  {
    PadStart(Decimal(n), 2, '0')
  }

  /** `formatTime(time)`: the whole minutes `Math.floor(time / 60)` and the remaining seconds
      `time % 60`, each as a padded field, with ':' between them. For a non-negative integer
      both JavaScript operations agree with Dafny's `/` and `%`. */
  function FormatTime(time: nat): (r: string)
    ensures |r| >= 5 && r[|r| - 3] == ':' && r[|r| - 2..] == PaddedDecimal(time % 60)
  {
    Join(PaddedDecimal(time / 60), PaddedDecimal(time % 60))
  }

  /** The minutes field and the seconds field with ':' between them. */
  function Join(minutes: string, seconds: string): string {
    minutes + ":" + seconds
  }

  /** Reads a display back: a minutes field of digits, ':', and two digits below 60. */
  function ParseTime(s: string): (r: Option<nat>)
    ensures r.Some? ==> |s| >= 5 && s[|s| - 3] == ':'
  {
    if |s| < 5 || s[|s| - 3] != ':' then None
    else
      var minutes, seconds := s[..|s| - 3], s[|s| - 2..];
      if AllDigits(minutes) && AllDigits(seconds) && ValueOf(seconds) < 60
      then Some(60 * ValueOf(minutes) + ValueOf(seconds))
      else None
  }

  lemma {:induction false} ValueOfDecimal(n: nat)
    ensures ValueOf(Decimal(n)) == n
    decreases n
  {
    if n >= 10 {
      var s := Decimal(n);
      assert s[..|s| - 1] == Decimal(n / 10);
      ValueOfDecimal(n / 10);
    }
  }

  lemma {:induction false} ValueOfZeros(z: string)
    requires forall i :: 0 <= i < |z| ==> z[i] == '0'
    ensures AllDigits(z) && ValueOf(z) == 0
    decreases |z|
  {
    if z != [] {
      ValueOfZeros(z[..|z| - 1]);
    }
  }

  /** Leading zeros do not change the value of a numeral. */
  lemma {:induction false} ValueOfLeadingZeros(z: string, s: string)
    requires forall i :: 0 <= i < |z| ==> z[i] == '0'
    requires AllDigits(s)
    ensures AllDigits(z + s) && ValueOf(z + s) == ValueOf(s)
    decreases |s|
  {
    ValueOfZeros(z);
    if s == [] {
      assert z + s == z;
    } else {
      var zs := z + s;
      assert zs[..|zs| - 1] == z + s[..|s| - 1];
      ValueOfLeadingZeros(z, s[..|s| - 1]);
    }
  }

  /** What `padStart` puts in front of `s` is fill characters only. */
  lemma {:induction false} PadStartParts(s: string, target: nat, fill: char)
    ensures var r := PadStart(s, target, fill);
      r[|r| - |s|..] == s && forall i :: 0 <= i < |r| - |s| ==> r[i] == fill
    decreases target - |s|
  {
    if |s| < target {
      PadStartParts([fill] + s, target, fill);
    }
  }

  /** A field is at least two digits, exactly two below 100, and denotes the number it shows. */
  lemma PaddedDecimalFacts(n: nat)
    ensures var r := PaddedDecimal(n);
      AllDigits(r) && ValueOf(r) == n && |r| >= 2 && (|r| == 2 <==> n < 100)
  {
    var s := Decimal(n);
    var r := PadStart(s, 2, '0');
    PadStartParts(s, 2, '0');
    var z := r[..|r| - |s|];
    assert r == z + s;
    ValueOfLeadingZeros(z, s);
    ValueOfDecimal(n);
    assert AllDigits(r) && ValueOf(r) == n;
    assert |r| == 2 <==> |s| <= 2;
  }

  /** Where the fields of a joined display sit, for a two-character seconds field, and what
      they denote. */
  lemma JoinParts(minutes: string, seconds: string)
    requires |seconds| == 2 && AllDigits(minutes) && AllDigits(seconds)
    ensures var r := Join(minutes, seconds);
      |r| == |minutes| + 3 && r[|r| - 3] == ':' &&
      AllDigits(r[..|r| - 3]) && AllDigits(r[|r| - 2..]) &&
      ValueOf(r[..|r| - 3]) == ValueOf(minutes) && ValueOf(r[|r| - 2..]) == ValueOf(seconds)
  {
    var r := minutes + ":" + seconds;
    assert r[..|r| - 3] == minutes;
    assert r[|r| - 2..] == seconds;
  }

  /** A display made of a minutes field and a seconds field below 100 has ':' third from
      the end, digits everywhere else, and each field denotes the number it was made from. */
  lemma DisplayFields(minutes: nat, seconds: nat)
    requires seconds < 100
    ensures var r := Join(PaddedDecimal(minutes), PaddedDecimal(seconds));
      |r| >= 5 && r[|r| - 3] == ':' &&
      AllDigits(r[..|r| - 3]) && AllDigits(r[|r| - 2..]) &&
      ValueOf(r[..|r| - 3]) == minutes && ValueOf(r[|r| - 2..]) == seconds
  {
    PaddedDecimalFacts(minutes);
    PaddedDecimalFacts(seconds);
    JoinParts(PaddedDecimal(minutes), PaddedDecimal(seconds));
  }

  /** The display of `time` has ':' third from the end, digits everywhere else, and its
      minutes field denotes `time / 60` and its seconds field `time % 60`. */
  lemma FormatTimeFields(time: nat)
    ensures var r := FormatTime(time);
      |r| >= 5 && r[|r| - 3] == ':' &&
      AllDigits(r[..|r| - 3]) && AllDigits(r[|r| - 2..]) &&
      ValueOf(r[..|r| - 3]) == time / 60 && ValueOf(r[|r| - 2..]) == time % 60
  {
    DisplayFields(time / 60, time % 60);
  }

  /** The display is five characters, "MM:SS", exactly when the time is below 100 minutes
      (6000 seconds); beyond that the minutes field grows by as many digits as it needs. */
  lemma FormatTimeWidth(time: nat)
    ensures |FormatTime(time)| == 5 <==> time < 6000
  {
    var minutes, seconds := time / 60, time % 60;
    PaddedDecimalFacts(minutes);
    PaddedDecimalFacts(seconds);
    assert minutes < 100 <==> time < 6000;
  }

  /** Parsing a display gives back the time it shows: minutes * 60 + seconds == time. */
  lemma FormatTimeRoundTrip(time: nat)
    ensures ParseTime(FormatTime(time)) == Some(time)
  {
    FormatTimeFields(time);
  }

  /** Two different times never show the same display. */
  lemma FormatTimeInjective(a: nat, b: nat)
    requires FormatTime(a) == FormatTime(b)
    ensures a == b
  {
    FormatTimeRoundTrip(a);
    FormatTimeRoundTrip(b);
  }

  /** A single digit is padded with one leading zero. */
  lemma PaddedDigit(d: nat)
    requires d < 10
    ensures PaddedDecimal(d) == ['0', DigitChar(d)]
  {
    assert PadStart([DigitChar(d)], 2, '0') == PadStart(['0', DigitChar(d)], 2, '0');
  }

  /** The display of 65 seconds. */
  lemma FormatTime65()
    ensures FormatTime(65) == "01:05"
  {
  }

  /** The display of 3 seconds. */
  lemma FormatTime3()
    ensures FormatTime(3) == "00:03"
  {
  }

  /** The display of 600 seconds. */
  lemma FormatTime600()
    ensures FormatTime(600) == "10:00"
  {
  }
}
