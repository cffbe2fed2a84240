/** The display helpers exported beside the timer: `formatTime`,
    `getSessionLabel` and `formatTotalTime`.  Each formatter has a reader
    that parses its output back, and the round-trip lemmas say that the
    display shows exactly the quantity it claims to show. */
module Format {
  import opened Session

  // ---------------------------------------------------------------------
  // Decimal digits
  // ---------------------------------------------------------------------

  predicate IsDigit(c: char)
  {
    '0' <= c <= '9'
  }

  predicate AllDigits(s: string)
  {
    forall i :: 0 <= i < |s| ==> IsDigit(s[i])
  }

  function DigitChar(d: nat): (c: char)
    requires d < 10
    ensures IsDigit(c)
  {
    (48 + d) as char
  }

  function DigitValue(c: char): (d: nat)
    requires IsDigit(c)
    ensures d < 10 && DigitChar(d) == c
  {
    c as int - 48
  }

  lemma DigitRoundTrip(d: nat)
    requires d < 10
    ensures DigitValue(DigitChar(d)) == d
  {
  }

  /** The decimal rendering of a natural number, as `Number.prototype.toString`
      gives it: at least one digit, and no leading zero unless the number is 0. */
  function NatToString(n: nat): (r: string)
    ensures 1 <= |r| && AllDigits(r)
    ensures (n < 10) == (|r| == 1)
    ensures (n < 100) == (|r| <= 2)
    ensures r[0] == '0' ==> n == 0
    decreases n
  {
    if n < 10 then [DigitChar(n)] else NatToString(n / 10) + [DigitChar(n % 10)]
  }

  /** The number a string of decimal digits denotes. */
  function DecimalValue(s: string): nat
    requires AllDigits(s)
    decreases |s|
  {
    if s == [] then 0 else DecimalValue(s[..|s| - 1]) * 10 + DigitValue(s[|s| - 1])
  }

  lemma {:induction false} DecimalRoundTrip(n: nat)
    ensures DecimalValue(NatToString(n)) == n
    decreases n
  {
    var r := NatToString(n);
    if n < 10 {
      assert r[..|r| - 1] == [];
    } else {
      assert r[..|r| - 1] == NatToString(n / 10);
      DecimalRoundTrip(n / 10);
    }
  }

  /** The number of digits at the front of `s`. */
  function LeadingDigits(s: string): (k: nat)
    ensures k <= |s| && AllDigits(s[..k])
    ensures k < |s| ==> !IsDigit(s[k])
    decreases |s|
  {
    if s == [] || !IsDigit(s[0]) then 0
    else
      var k := 1 + LeadingDigits(s[1..]);
      assert s[..k] == [s[0]] + s[1..][..k - 1];
      k
  }

  lemma {:induction false} LeadingDigitsOfNumber(d: string, t: string)
    requires AllDigits(d)
    requires t == [] || !IsDigit(t[0])
    ensures LeadingDigits(d + t) == |d|
    decreases |d|
  {
    if d == [] {
      assert d + t == t;
    } else {
      assert (d + t)[1..] == d[1..] + t;
      LeadingDigitsOfNumber(d[1..], t);
    }
  }

  /** Reads the number at the front of `r`, returning it with the rest of `r`. */
  function ReadNumber(r: string): Option<(nat, string)>
  {
    var k := LeadingDigits(r);
    if k == 0 then None else Some((DecimalValue(r[..k]), r[k..]))
  }

  /** A non-empty run of digits followed by a non-digit reads back as its value. */
  lemma ReadNumberOfDigits(d: string, t: string)
    requires d != [] && AllDigits(d)
    requires t == [] || !IsDigit(t[0])
    ensures ReadNumber(d + t) == Some((DecimalValue(d), t))
  {
    LeadingDigitsOfNumber(d, t);
    assert (d + t)[..|d|] == d;
    assert (d + t)[|d|..] == t;
  }

  /** `padStart(width, pad)`: pads on the left up to `width` characters;
      a string already that long is unchanged. */
  function PadStart(s: string, width: nat, pad: char): (r: string)
  {
    if |s| < width then seq(width - |s|, _ => pad) + s else s
  }

  /** A number below 100 padded to two places is its tens digit followed by
      its units digit. */
  lemma PaddedTwoDigits(n: nat)
    requires n < 100
    ensures PadStart(NatToString(n), 2, '0') == [DigitChar(n / 10), DigitChar(n % 10)]
  {
  }

  lemma TwoDigitValue(a: nat, b: nat)
    requires a < 10 && b < 10
    ensures DecimalValue([DigitChar(a), DigitChar(b)]) == a * 10 + b
  {
    var s := [DigitChar(a), DigitChar(b)];
    var first := s[..1];
    assert first == [DigitChar(a)];
    assert first[..0] == [];
    DigitRoundTrip(a);
    DigitRoundTrip(b);
    assert DecimalValue(first) == DecimalValue([]) * 10 + DigitValue(DigitChar(a));
    assert DecimalValue(s) == DecimalValue(first) * 10 + DigitValue(DigitChar(b));
  }

  /** Zero-padding to two places never changes the value shown. */
  lemma PaddedValue(n: nat)
    ensures AllDigits(PadStart(NatToString(n), 2, '0'))
    ensures DecimalValue(PadStart(NatToString(n), 2, '0')) == n
  {
    if n < 100 {
      PaddedTwoDigits(n);
      TwoDigitValue(n / 10, n % 10);
    } else {
      DecimalRoundTrip(n);
    }
  }

  // ---------------------------------------------------------------------
  // formatTime
  // ---------------------------------------------------------------------

  /** `formatTime`: whole minutes and remaining seconds, each zero-padded to
      two places, separated by a colon.  Minutes from 100 upwards are shown
      with as many digits as they need. */
  function FormatTime(seconds: nat): (r: string)
  {
    var minutes := seconds / 60;
    var remainingSeconds := seconds % 60;
    PadStart(NatToString(minutes), 2, '0') + ":" + PadStart(NatToString(remainingSeconds), 2, '0')
  }

  /** Below 100 minutes the display is exactly five characters "MM:SS". */
  lemma FormatTimeFixedWidth(seconds: nat)
    requires seconds < 6000
    ensures FormatTime(seconds) ==
      [DigitChar(seconds / 60 / 10), DigitChar(seconds / 60 % 10), ':',
       DigitChar(seconds % 60 / 10), DigitChar(seconds % 60 % 10)]
  {
    var minutes, remainingSeconds := seconds / 60, seconds % 60;
    PaddedTwoDigits(minutes);
    PaddedTwoDigits(remainingSeconds);
    var mm := [DigitChar(minutes / 10), DigitChar(minutes % 10)];
    var ss := [DigitChar(remainingSeconds / 10), DigitChar(remainingSeconds % 10)];
    assert FormatTime(seconds) == mm + ":" + ss;
  }

  /** A number as `toString` writes it: at least one digit, and no leading
      zero unless the number is 0 itself. */
  predicate Canonical(d: string)
  {
    d != [] && AllDigits(d) && (|d| == 1 || d[0] != '0')
  }

  /** Reads the number at the front of `r` like `ReadNumber`, but refuses a
      figure written with a leading zero, which `toString` never writes. */
  function ReadCanonicalNumber(r: string): Option<(nat, string)>
  {
    var k := LeadingDigits(r);
    if k == 0 || (k > 1 && r[0] == '0') then None else Some((DecimalValue(r[..k]), r[k..]))
  }

  /** `toString` of a number followed by a non-digit reads back as that number. */
  lemma ReadCanonicalNumberOf(n: nat, t: string)
    requires t == [] || !IsDigit(t[0])
    ensures ReadCanonicalNumber(NatToString(n) + t) == Some((n, t))
  {
    var d := NatToString(n);
    LeadingDigitsOfNumber(d, t);
    DecimalRoundTrip(n);
    assert (d + t)[..|d|] == d;
    assert (d + t)[|d|..] == t;
  }

  /** A figure without a leading zero denotes a positive number unless it is "0". */
  lemma {:induction false} LeadingNonZeroPositive(d: string)
    requires d != [] && AllDigits(d) && d[0] != '0'
    ensures DecimalValue(d) > 0
    decreases |d|
  {
    if |d| > 1 {
      LeadingNonZeroPositive(d[..|d| - 1]);
    } else {
      assert d[..0] == [];
      assert DigitChar(0) == '0';
    }
  }

  /** Every canonical figure is the one `toString` writes for its value. */
  lemma {:induction false} CanonicalIsNatToString(d: string)
    requires Canonical(d)
    ensures NatToString(DecimalValue(d)) == d
    decreases |d|
  {
    var c := d[|d| - 1];
    if |d| == 1 {
      assert d[..0] == [];
      assert d == [c];
    } else {
      var front := d[..|d| - 1];
      assert front[0] == d[0];
      CanonicalIsNatToString(front);
      LeadingNonZeroPositive(front);
      var n := DecimalValue(d);
      assert n / 10 == DecimalValue(front) && n % 10 == DigitValue(c);
      assert d == front + [c];
    }
  }

  /** Reads an "M…M:SS" display back as a number of seconds, refusing
      anything else (including a seconds field of 60 or more). */
  function ReadClock(r: string): Option<nat>
  {
    match ReadNumber(r)
    case None => None
    case Some((minutes, rest)) =>
      if |rest| == 3 && rest[0] == ':' && AllDigits(rest[1..]) && DecimalValue(rest[1..]) < 60
      then Some(minutes * 60 + DecimalValue(rest[1..]))
      else None
  }

  /** Every natural number of seconds is displayed as a well-formed clock
      that reads back as exactly that number of seconds. */
  lemma FormatTimeRoundTrip(seconds: nat)
    ensures ReadClock(FormatTime(seconds)) == Some(seconds)
  {
    var minutes, remainingSeconds := seconds / 60, seconds % 60;
    var mm := PadStart(NatToString(minutes), 2, '0');
    var ss := PadStart(NatToString(remainingSeconds), 2, '0');
    assert FormatTime(seconds) == mm + (":" + ss);
    PaddedValue(minutes);
    PaddedValue(remainingSeconds);
    PaddedTwoDigits(remainingSeconds);
    ReadNumberOfDigits(mm, ":" + ss);
    assert (":" + ss)[1..] == ss;
  }

  // ---------------------------------------------------------------------
  // getSessionLabel
  // ---------------------------------------------------------------------

  /** `getSessionLabel`: the heading shown for each session type; the two
      labels differ, so the label identifies the session. */
  function SessionLabel(t: SessionType): (r: string)
    ensures r == "Focus Time" <==> t == Work
    ensures r == "Break Time" <==> t == Break
  {
    match t
    case Work => "Focus Time"
    case Break => "Break Time"
  }

  // ---------------------------------------------------------------------
  // formatTotalTime
  // ---------------------------------------------------------------------

  /** `formatTotalTime`: "{hours}hours {minutes} mins" from one hour upwards,
      otherwise "{minutes} mins"; leftover seconds are dropped. */
  function FormatTotalTime(seconds: nat): (r: string)
  {
    var hours := seconds / 3600;
    var minutes := (seconds % 3600) / 60;
    if hours > 0 then NatToString(hours) + "hours " + NatToString(minutes) + " mins"
    else NatToString(minutes) + " mins"
  }

  /** Reads a total-time display back as a number of whole minutes; both
      figures must be written as `toString` writes them. */
  function ReadTotalTime(r: string): Option<nat>
  {
    match ReadCanonicalNumber(r)
    case None => None
    case Some((n, rest)) =>
      if rest == " mins" then Some(n)
      else
        match ReadMinutesAfterHours(rest)
        case None => None
        case Some(minutes) => Some(n * 60 + minutes)
  }

  /** Reads the "hours {minutes} mins" that follows the hours figure. */
  function ReadMinutesAfterHours(rest: string): Option<nat>
  {
    if |rest| > 6 && rest[..6] == "hours " then
      match ReadCanonicalNumber(rest[6..])
      case None => None
      case Some((minutes, tail)) => if tail == " mins" && minutes < 60 then Some(minutes) else None
    else None
  }

  lemma HoursAndMinutes(seconds: nat)
    ensures seconds / 3600 * 60 + seconds % 3600 / 60 == seconds / 60
  {
  }

  lemma {:induction false} ReadMinutesOnly(m: nat)
    ensures ReadTotalTime(NatToString(m) + " mins") == Some(m)
  {
    ReadCanonicalNumberOf(m, " mins");
  }

  lemma {:induction false} ReadMinutesAfterHoursOf(m: nat)
    requires m < 60
    ensures ReadMinutesAfterHours("hours " + NatToString(m) + " mins") == Some(m)
  {
    var ms := NatToString(m);
    var rest := "hours " + ms + " mins";
    assert rest[..6] == "hours ";
    assert rest[6..] == ms + " mins";
    ReadCanonicalNumberOf(m, " mins");
  }

  lemma {:induction false} ReadHoursAndMinutes(h: nat, m: nat)
    requires m < 60
    ensures ReadTotalTime(NatToString(h) + ("hours " + NatToString(m) + " mins")) == Some(h * 60 + m)
  {
    var hs := NatToString(h);
    var rest := "hours " + NatToString(m) + " mins";
    ReadCanonicalNumberOf(h, rest);
    assert rest[0] != " mins"[0];
    ReadMinutesAfterHoursOf(m);
  }

  /** The total-time display shows exactly the whole minutes spent: it reads
      back as `seconds / 60`. */
  lemma FormatTotalTimeRoundTrip(seconds: nat)
    ensures ReadTotalTime(FormatTotalTime(seconds)) == Some(seconds / 60)
  {
    var hours: nat := seconds / 3600;
    var minutes: nat := (seconds % 3600) / 60;
    HoursAndMinutes(seconds);
    if hours > 0 {
      var hs, ms := NatToString(hours), NatToString(minutes);
      var r := hs + ("hours " + ms + " mins");
      assert FormatTotalTime(seconds) == r by {
        assert hs + "hours " + ms + " mins" == hs + ("hours " + ms + " mins");
      }
      ReadHoursAndMinutes(hours, minutes);
      assert ReadTotalTime(r) == Some(hours * 60 + minutes);
    } else {
      var r := NatToString(minutes) + " mins";
      assert FormatTotalTime(seconds) == r;
      ReadMinutesOnly(minutes);
      assert ReadTotalTime(r) == Some(minutes);
    }
  }

  /** The display of a countdown at 1:05. */
  lemma FormatTimeExample()
    ensures FormatTime(65) == "01:05"
  {
  }

  /** One and a half hours of work is shown in hours and minutes. */
  lemma FormatTotalTimeHoursExample()
    ensures FormatTotalTime(5400) == "1hours 30 mins"
  {
  }

  /** Two minutes of work is shown in minutes only. */
  lemma FormatTotalTimeMinutesExample()
    ensures FormatTotalTime(120) == "2 mins"
  {
  }

  /** The hours form is used exactly from one hour upwards: only then does
      the display contain an 'h'.  With `FormatTotalTimeRoundTrip` this fixes
      the display for every input (`TotalTimeDisplayUnique`). */
  lemma FormatTotalTimeHoursForm(seconds: nat)
    ensures ('h' in FormatTotalTime(seconds)) <==> seconds >= 3600
  {
  }

  /** Reading the value back and the presence of the hours part determine
      the display: any string that reads back as `seconds / 60` and carries
      an 'h' exactly from one hour upwards is `FormatTotalTime(seconds)`. */
  lemma TotalTimeDisplayUnique(seconds: nat, r: string)
    requires ReadTotalTime(r) == Some(seconds / 60)
    requires ('h' in r) <==> seconds >= 3600
    ensures r == FormatTotalTime(seconds)
  {
    var k := LeadingDigits(r);
    var n, rest := DecimalValue(r[..k]), r[k..];
    assert Canonical(r[..k]);
    CanonicalIsNatToString(r[..k]);
    assert r == NatToString(n) + rest;
    if rest == " mins" {
      MinutesDisplayUnique(seconds, n);
    } else {
      var m :| ReadMinutesAfterHours(rest) == Some(m);
      HoursDisplayUnique(seconds, n, m, rest);
    }
  }

  lemma MinutesDisplayUnique(seconds: nat, n: nat)
    requires n == seconds / 60
    requires ('h' in NatToString(n) + " mins") <==> seconds >= 3600
    ensures NatToString(n) + " mins" == FormatTotalTime(seconds)
  {
    NoLetterInMinutesDisplay(n);
  }

  /** A minutes-only display carries no 'h'. */
  lemma NoLetterInMinutesDisplay(n: nat)
    ensures 'h' !in NatToString(n) + " mins"
  {
  }

  lemma HoursDisplayUnique(seconds: nat, n: nat, m: nat, rest: string)
    requires ReadMinutesAfterHours(rest) == Some(m)
    requires n * 60 + m == seconds / 60
    requires ('h' in NatToString(n) + rest) <==> seconds >= 3600
    ensures NatToString(n) + rest == FormatTotalTime(seconds)
  {
    MinutesAfterHoursField(rest, m);
    assert (NatToString(n) + rest)[|NatToString(n)|] == 'h';
    HoursAndMinutes(seconds);
    var hours, minutes := seconds / 3600, (seconds % 3600) / 60;
    assert n == hours && m == minutes;
    assert NatToString(n) + rest == NatToString(hours) + "hours " + NatToString(minutes) + " mins";
  }

  /** What `ReadMinutesAfterHours` accepts is exactly the text `formatTotalTime`
      writes after the hours figure. */
  lemma MinutesAfterHoursField(rest: string, m: nat)
    requires ReadMinutesAfterHours(rest) == Some(m)
    ensures m < 60 && rest == "hours " + NatToString(m) + " mins"
  {
    var tail := rest[6..];
    var j := LeadingDigits(tail);
    assert Canonical(tail[..j]);
    CanonicalIsNatToString(tail[..j]);
    assert tail == NatToString(m) + " mins";
    assert rest == "hours " + tail;
  }
}
