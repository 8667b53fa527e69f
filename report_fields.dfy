/**
 * The two value helpers of switchreport.py: `getPortStatus`, which names an
 * ifOperStatus code, and `convertTimeTickToReadable`, which turns a TimeTicks
 * count (hundredths of a second, RFC 2578 section 7.1.8) into days, hours and
 * minutes.
 */
module ReportFields {
  import opened Wrappers
  import opened PyText

  const TICKS_PER_DAY := 8640000
  const TICKS_PER_HOUR := 360000
  const TICKS_PER_MINUTE := 6000

  /** An RFC 2578 TimeTicks value: a non-negative integer below 2^32. */
  type Ticks = t: int | 0 <= t < 0x1_0000_0000

  /** `getPortStatus`: 1 is "Up", 2 is "Down", every other code "Unknown". */
  function PortStatus(code: int): (status: string)
    ensures status == "Up" <==> code == 1
    ensures status == "Down" <==> code == 2
    ensures status == "Unknown" <==> code != 1 && code != 2
  {
    if code == 1 then "Up" else if code == 2 then "Down" else "Unknown"
  }

  datatype Breakdown = Breakdown(days: int, hours: int, minutes: int)

  /** The three chained `divmod` calls of `convertTimeTickToReadable`; what is
      left after the minutes (the seconds) is dropped. Python's `divmod` by a
      positive number rounds down, as Dafny's `/` and `%` do, so negative spans
      come out as Python computes them. */
  function Divide(t: int): (b: Breakdown)
    ensures 0 <= b.hours < 24 && 0 <= b.minutes < 60
    ensures 0 <= t - (b.days * TICKS_PER_DAY + b.hours * TICKS_PER_HOUR + b.minutes * TICKS_PER_MINUTE)
              < TICKS_PER_MINUTE
  {
    var d, m := t / TICKS_PER_DAY, t % TICKS_PER_DAY;
    var h, m' := m / TICKS_PER_HOUR, m % TICKS_PER_HOUR;
    var mi := m' / TICKS_PER_MINUTE;
    Breakdown(d, h, mi)
  }

  /** Euclidean division by a positive divisor has one quotient and one remainder. */
  lemma DivModUnique(t: int, divisor: int, q: int, r: int)
    requires divisor > 0 && 0 <= r < divisor && t == q * divisor + r
    ensures q == t / divisor && r == t % divisor
  {
    var q', r' := t / divisor, t % divisor;
    assert (q - q') * divisor == r' - r by {
      assert t == q' * divisor + r';
      assert (q - q') * divisor == q * divisor - q' * divisor;
    }
    SmallMultipleIsZero(q - q', divisor);
  }

  /** The only multiple of `divisor` strictly between `-divisor` and `divisor` is zero. */
  lemma SmallMultipleIsZero(z: int, divisor: int)
    requires divisor > 0 && -divisor < z * divisor < divisor
    ensures z == 0
  {
    if z > 0 {
      MultipleAtLeast(z, divisor);
    } else if z < 0 {
      MultipleAtLeast(-z, divisor);
    }
  }

  lemma {:induction false} MultipleAtLeast(z: int, divisor: int)
    requires z >= 1 && divisor > 0
    ensures z * divisor >= divisor
    decreases z
  {
    if z > 1 {
      MultipleAtLeast(z - 1, divisor);
      assert z * divisor == (z - 1) * divisor + divisor;
    }
  }

  /** The breakdown is the only one with hours below 24, minutes below 60 and
      less than a minute left over; in particular the minutes are
      `(t mod 360000) div 6000`. */
  lemma DivideUnique(t: int, b: Breakdown)
    requires 0 <= b.hours < 24 && 0 <= b.minutes < 60
    requires 0 <= t - (b.days * TICKS_PER_DAY + b.hours * TICKS_PER_HOUR + b.minutes * TICKS_PER_MINUTE)
             < TICKS_PER_MINUTE
    ensures b == Divide(t)
    ensures b.days == t / TICKS_PER_DAY
    ensures b.hours == (t % TICKS_PER_DAY) / TICKS_PER_HOUR
    ensures b.minutes == (t % TICKS_PER_HOUR) / TICKS_PER_MINUTE
  {
    var s := t - (b.days * TICKS_PER_DAY + b.hours * TICKS_PER_HOUR + b.minutes * TICKS_PER_MINUTE);
    var inHour := b.minutes * TICKS_PER_MINUTE + s;
    var inDay := b.hours * TICKS_PER_HOUR + inHour;
    DivModUnique(inHour, TICKS_PER_MINUTE, b.minutes, s);
    DivModUnique(inDay, TICKS_PER_HOUR, b.hours, inHour);
    DivModUnique(t, TICKS_PER_DAY, b.days, inDay);
    DivModUnique(t, TICKS_PER_HOUR, b.days * 24 + b.hours, inHour);
    var c := Divide(t);
    var cs := t - (c.days * TICKS_PER_DAY + c.hours * TICKS_PER_HOUR + c.minutes * TICKS_PER_MINUTE);
    var cHour := c.minutes * TICKS_PER_MINUTE + cs;
    var cDay := c.hours * TICKS_PER_HOUR + cHour;
    DivModUnique(cHour, TICKS_PER_MINUTE, c.minutes, cs);
    DivModUnique(cDay, TICKS_PER_HOUR, c.hours, cHour);
    DivModUnique(t, TICKS_PER_DAY, c.days, cDay);
  }

  /** `convertTimeTickToReadable(t)`: the three parts joined by single spaces,
      each one present even when it is zero. */
  function DurationText(t: int): string
  {
    var b := Divide(t);
    Join([FormatInt(b.days) + " days", FormatInt(b.hours) + " hours", FormatInt(b.minutes) + " minutes"], ' ')
  }

  /** Splitting the duration at its spaces gives the three numbers and their units. */
  lemma DurationWords(t: int)
    ensures var b := Divide(t);
      Split(DurationText(t), ' ')
      == [FormatInt(b.days), "days", FormatInt(b.hours), "hours", FormatInt(b.minutes), "minutes"]
  {
    var b := Divide(t);
    var words := [FormatInt(b.days), "days", FormatInt(b.hours), "hours", FormatInt(b.minutes), "minutes"];
    JoinWords(FormatInt(b.days), FormatInt(b.hours), FormatInt(b.minutes));
    NoSpaceInNumber(b.days);
    NoSpaceInNumber(b.hours);
    NoSpaceInNumber(b.minutes);
    SplitOfJoin(words, ' ');
  }

  lemma NoSpaceInNumber(n: int)
    ensures ' ' !in FormatInt(n)
  {
    FormatIntChars(n);
  }

  /** The duration's three "number unit" parts, joined by spaces, are its six words joined by spaces. */
  lemma JoinWords(d: string, h: string, m: string)
    ensures Join([d, "days", h, "hours", m, "minutes"], ' ')
            == Join([d + " days", h + " hours", m + " minutes"], ' ')
  {
    var words := [d, "days", h, "hours", m, "minutes"];
    var parts := [d + " days", h + " hours", m + " minutes"];
    assert words[5..] == ["minutes"] && words[4..][1..] == words[5..];
    assert Join(words[4..], ' ') == m + " minutes";
    assert words[3..][1..] == words[4..];
    assert words[2..][1..] == words[3..];
    assert Join(words[2..], ' ') == h + " hours " + m + " minutes";
    assert words[1..][1..] == words[2..];
    assert Join(words, ' ') == d + " days " + h + " hours " + m + " minutes";
    assert parts[1..][1..] == [m + " minutes"];
    assert Join(parts[1..], ' ') == h + " hours " + m + " minutes";
  }

  /** The duration text can be read back: its first, third and fifth words are
      the days, hours and minutes of the span. */
  lemma DurationRoundTrip(t: int)
    ensures var w := Split(DurationText(t), ' ');
      && |w| == 6 && w[1] == "days" && w[3] == "hours" && w[5] == "minutes"
      && ParseInt(w[0]) == Some(t / TICKS_PER_DAY)
      && ParseInt(w[2]) == Some((t % TICKS_PER_DAY) / TICKS_PER_HOUR)
      && ParseInt(w[4]) == Some((t % TICKS_PER_HOUR) / TICKS_PER_MINUTE)
  {
    var b := Divide(t);
    var w := Split(DurationText(t), ' ');
    DurationWords(t);
    assert w[0] == FormatInt(b.days) && w[2] == FormatInt(b.hours) && w[4] == FormatInt(b.minutes);
    DivideUnique(t, b);
    ParseFormatInt(b.days);
    ParseFormatInt(b.hours);
    ParseFormatInt(b.minutes);
  }
}
