/** The countdown text of CountdownTimer: a millisecond difference between the
    deadline and the current time becomes either "Deadline passed" or an
    "HH:MM:SS" string whose hour field is unbounded. Alongside the formatter
    sits its inverse, Parse, which reads such a string back. */
module Clock {

  const MillisPerSecond: int := 1000
  const MillisPerMinute: int := 1000 * 60
  const MillisPerHour: int := 1000 * 60 * 60

  const DeadlinePassed: string := "Deadline passed"

  datatype Option<T> = None | Some(value: T)

  /** Whole hours, minutes and seconds of a positive remaining time. */
  datatype Duration = Duration(hours: nat, minutes: nat, seconds: nat)

  /** The milliseconds a duration stands for. */
  function Millis(d: Duration): int {
    d.hours * MillisPerHour + d.minutes * MillisPerMinute + d.seconds * MillisPerSecond
  }

  /** The three fields of the countdown, taken with floor division from a
      positive integer number of milliseconds: the duration is the remaining
      time rounded down to a whole second, with minutes and seconds below 60. */
  function Split(diff: int): (d: Duration)
    requires diff > 0
    ensures d.minutes < 60 && d.seconds < 60
    ensures Millis(d) <= diff < Millis(d) + MillisPerSecond
  {
    var d := Duration(diff / MillisPerHour,
                      (diff % MillisPerHour) / MillisPerMinute,
                      (diff % MillisPerMinute) / MillisPerSecond);
    SplitBounds(diff);
    d
  }

  /** The arithmetic behind Split's contract, one division at a time. */
  lemma SplitBounds(diff: int)
    requires diff > 0
    ensures (diff % MillisPerHour) / MillisPerMinute < 60
    ensures (diff % MillisPerMinute) / MillisPerSecond < 60
    ensures var h, m, s := diff / MillisPerHour, (diff % MillisPerHour) / MillisPerMinute,
                          (diff % MillisPerMinute) / MillisPerSecond;
            h * MillisPerHour + m * MillisPerMinute + s * MillisPerSecond <= diff
            < h * MillisPerHour + m * MillisPerMinute + s * MillisPerSecond + MillisPerSecond
  {
    var h, r := diff / 3600000, diff % 3600000;
    assert diff == h * 3600000 + r && 0 <= r < 3600000;
    var m, r2 := r / 60000, r % 60000;
    assert r == m * 60000 + r2 && 0 <= r2 < 60000;
    assert m < 60;
    // the minute remainder of diff is the minute remainder of r, since an hour is 60 minutes
    assert diff == (h * 60 + m) * 60000 + r2;
    assert diff % 60000 == r2;
    var s, r3 := r2 / 1000, r2 % 1000;
    assert r2 == s * 1000 + r3 && 0 <= r3 < 1000;
    assert s < 60;
  }

  /** Split is the only duration with in-range minutes and seconds that rounds
      the remaining time down to a whole second. */
  lemma SplitUnique(diff: int, d: Duration)
    requires diff > 0
    requires d.minutes < 60 && d.seconds < 60
    requires Millis(d) <= diff < Millis(d) + MillisPerSecond
    ensures d == Split(diff)
  {
    var e := Split(diff);
    // both durations are whole seconds within one second of diff
    var a := d.hours * 3600 + d.minutes * 60 + d.seconds;
    var b := e.hours * 3600 + e.minutes * 60 + e.seconds;
    assert Millis(d) == a * 1000 && Millis(e) == b * 1000;
    assert a == b;
    SameClock(d.hours, d.minutes, d.seconds, e.hours, e.minutes, e.seconds);
  }

  /** With minutes and seconds below 60, a count of seconds fixes every field. */
  lemma SameClock(h1: nat, m1: nat, s1: nat, h2: nat, m2: nat, s2: nat)
    requires m1 < 60 && s1 < 60 && m2 < 60 && s2 < 60
    requires h1 * 3600 + m1 * 60 + s1 == h2 * 3600 + m2 * 60 + s2
    ensures h1 == h2 && m1 == m2 && s1 == s2
  {
    assert 0 <= m1 * 60 + s1 < 3600 && 0 <= m2 * 60 + s2 < 3600;
    assert h1 == h2;
    assert m1 == m2;
  }

  predicate IsDigit(c: char) {
    '0' <= c <= '9'
  }

  predicate AllDigits(s: string) {
    forall i :: 0 <= i < |s| ==> IsDigit(s[i])
  }

  function DigitChar(k: nat): (c: char)
    requires k < 10
    ensures IsDigit(c) && DigitValue(c) == k
  {
    ('0' as int + k) as char
  }

  function DigitValue(c: char): nat
    requires IsDigit(c)
  {
    c as int - '0' as int
  }

  /** The number a string of decimal digits denotes, most significant first. */
  function Value(s: string): nat
    requires AllDigits(s)
  {
    if s == [] then 0 else Value(s[..|s| - 1]) * 10 + DigitValue(s[|s| - 1])
  }

  /** The decimal digits of n, as JavaScript's Number.prototype.toString
      writes a non-negative integer: no sign and no leading zero. */
  function Decimal(n: nat): (s: string)
    ensures 1 <= |s| && AllDigits(s)
    ensures Value(s) == n
    ensures s[0] == '0' ==> n == 0 && |s| == 1
    decreases n
  {
    if n < 10 then [DigitChar(n)]
    else
      var prefix := Decimal(n / 10);
      var s := prefix + [DigitChar(n % 10)];
      assert s[..|s| - 1] == prefix;
      s
  }

  /** String.prototype.padStart with a one-character fill: s unchanged when it
      already has the width, otherwise s preceded by enough fill characters. */
  function PadStart(s: string, width: nat, fill: char): (r: string)
    ensures |r| == if |s| < width then width else |s|
    ensures r[|r| - |s|..] == s
    ensures forall i :: 0 <= i < |r| - |s| ==> r[i] == fill
  {
    if |s| >= width then s else seq(width - |s|, _ => fill) + s
  }

  /** Leading zeros do not change the value of a digit string. */
  lemma {:induction false} ValueLeadingZeros(z: string, s: string)
    requires forall i :: 0 <= i < |z| ==> z[i] == '0'
    requires AllDigits(s)
    ensures AllDigits(z + s) && Value(z + s) == Value(s)
    decreases |s|
  {
    if s == [] {
      assert z + s == z;
      ZerosValue(z);
    } else {
      var t := z + s;
      assert t[..|t| - 1] == z + s[..|s| - 1];
      ValueLeadingZeros(z, s[..|s| - 1]);
    }
  }

  lemma {:induction false} ZerosValue(z: string)
    requires forall i :: 0 <= i < |z| ==> z[i] == '0'
    ensures AllDigits(z) && Value(z) == 0
    decreases |z|
  {
    if z != [] {
      ZerosValue(z[..|z| - 1]);
    }
  }

  /** One countdown field: the decimal digits of n left-padded with '0' to at
      least two characters, never truncated, and still denoting n. */
  function PadTwo(n: nat): (r: string)
    ensures |r| >= 2 && AllDigits(r) && Value(r) == n
    ensures |r| == if n < 10 then 2 else |Decimal(n)|
    ensures n >= 10 ==> r == Decimal(n)
  {
    var s := Decimal(n);
    var r := PadStart(s, 2, '0');
    assert r == r[..|r| - |s|] + s;
    ValueLeadingZeros(r[..|r| - |s|], s);
    r
  }

  /** The "HH:MM:SS" text of a duration. */
  function Render(d: Duration): (r: string)
    ensures |r| >= 8 && IsDigit(r[0])
    ensures multiset(r)[':'] == 2
  {
    var h, m, s := PadTwo(d.hours), PadTwo(d.minutes), PadTwo(d.seconds);
    JoinColons(h, m, s);
    h + ":" + m + ":" + s
  }

  /** Joining three digit strings with ':' puts exactly two ':' in the text. */
  lemma JoinColons(h: string, m: string, s: string)
    requires AllDigits(h) && AllDigits(m) && AllDigits(s) && h != []
    ensures multiset(h + ":" + m + ":" + s)[':'] == 2
    ensures (h + ":" + m + ":" + s)[0] == h[0]
  {
    DigitsHaveNoColon(h);
    DigitsHaveNoColon(m);
    DigitsHaveNoColon(s);
    var a := h + ":";
    var b := a + m;
    var c := b + ":";
    assert multiset(a)[':'] == 1 by { assert multiset(a) == multiset(h) + multiset{':'}; }
    assert multiset(b)[':'] == 1 by { assert multiset(b) == multiset(a) + multiset(m); }
    assert multiset(c)[':'] == 2 by { assert multiset(c) == multiset(b) + multiset{':'}; }
    assert multiset(c + s) == multiset(c) + multiset(s);
  }

  /** calculateTimeRemaining: "Deadline passed" when no time is left, and the
      "HH:MM:SS" rendering of the remaining time otherwise. */
  function Format(diff: int): (r: string)
    ensures diff <= 0 ==> r == DeadlinePassed
    ensures diff > 0 ==> |r| >= 8 && multiset(r)[':'] == 2 && r != DeadlinePassed
  {
    if diff <= 0 then DeadlinePassed
    else
      var r := Render(Split(diff));
      assert DeadlinePassed[0] == 'D';
      r
  }

  // ---------------------------------------------------------------------------
  // Reading a countdown back

  /** The pieces of s between ':' characters; a string without ':' is one piece. */
  function SplitColons(s: string): (parts: seq<string>)
    ensures |parts| >= 1
    decreases |s|
  {
    if s == [] then [[]]
    else
      var rest := SplitColons(s[1..]);
      if s[0] == ':' then [[]] + rest else [[s[0]] + rest[0]] + rest[1..]
  }

  /** A countdown string back to its duration; anything else, including
      "Deadline passed", is None. */
  function Parse(s: string): Option<Duration> {
    var parts := SplitColons(s);
    if |parts| == 3 && AllDigits(parts[0]) && AllDigits(parts[1]) && AllDigits(parts[2])
       && parts[0] != [] && parts[1] != [] && parts[2] != []
    then Some(Duration(Value(parts[0]), Value(parts[1]), Value(parts[2])))
    else None
  }

  lemma {:induction false} SplitNoColon(a: string)
    requires ':' !in a
    ensures SplitColons(a) == [a]
    decreases |a|
  {
    if a != [] {
      assert ':' !in a[1..];
      SplitNoColon(a[1..]);
      assert [a[0]] + a[1..] == a;
    }
  }

  lemma {:induction false} SplitAtColon(a: string, b: string)
    requires ':' !in a
    ensures SplitColons(a + ":" + b) == [a] + SplitColons(b)
    decreases |a|
  {
    var s := a + ":" + b;
    if a == [] {
      assert s[1..] == b;
    } else {
      assert s[1..] == a[1..] + ":" + b;
      assert ':' !in a[1..];
      SplitAtColon(a[1..], b);
      assert [a[0]] + a[1..] == a;
    }
  }

  lemma DigitsHaveNoColon(s: string)
    requires AllDigits(s)
    ensures ':' !in s
  {
  }

  /** Three digit fields joined by ':' parse back to their values. */
  lemma JoinParse(h: string, m: string, s: string)
    requires AllDigits(h) && AllDigits(m) && AllDigits(s)
    requires h != [] && m != [] && s != []
    ensures Parse(h + ":" + m + ":" + s) == Some(Duration(Value(h), Value(m), Value(s)))
  {
    DigitsHaveNoColon(h);
    DigitsHaveNoColon(m);
    DigitsHaveNoColon(s);
    var tail := m + ":" + s;
    assert h + ":" + m + ":" + s == h + ":" + tail;
    SplitAtColon(h, tail);
    SplitAtColon(m, s);
    SplitNoColon(s);
    assert SplitColons(h + ":" + m + ":" + s) == [h, m, s];
  }

  /** Rendering then parsing gives the duration back. */
  lemma RenderParse(d: Duration)
    ensures Parse(Render(d)) == Some(d)
  {
    JoinParse(PadTwo(d.hours), PadTwo(d.minutes), PadTwo(d.seconds));
  }

  /** Format and Parse are inverse: the countdown text determines the remaining
      time to the second, and "Deadline passed" reads back as no duration. */
  lemma FormatParse(diff: int)
    ensures Parse(Format(diff)) == if diff <= 0 then None else Some(Split(diff))
  {
    if diff <= 0 {
      assert ':' !in DeadlinePassed;
      SplitNoColon(DeadlinePassed);
    } else {
      RenderParse(Split(diff));
    }
  }
}
