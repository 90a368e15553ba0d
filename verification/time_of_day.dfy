/** The derived `hour` column: the hour of a wall-clock time written in the
    `%H:%M:%S` format (main.py line 15). The conversion yields an hour, a
    missing value (NaT) for an empty or "not a time" string, or an error
    that stops the load. */
module TimeOfDay {
  import opened Wrappers
  import opened Text

  /** One numeric field of the `%H:%M:%S` format: one or two ASCII digits
      whose value is at most `max`. The format's pattern accepts "7" as
      well as "07". */
  function ParseField(p: string, max: nat): (r: Option<nat>)
    ensures r.Some? <==> 1 <= |p| <= 2 && AllDigits(p) && Value(p) <= max
    ensures r.Some? ==> r.value == Value(p) && r.value <= max
  {
    if 1 <= |p| <= 2 && AllDigits(p) && Value(p) <= max then Some(Value(p)) else None
  }

  /** The `%H` directive's pattern `2[0-3]|[0-1]\d|\d`, character by
      character. */
  predicate HourPattern(p: string) {
    || (|p| == 2 && p[0] == '2' && '0' <= p[1] <= '3')
    || (|p| == 2 && '0' <= p[0] <= '1' && IsDigit(p[1]))
    || (|p| == 1 && IsDigit(p[0]))
  }

  /** The `%M` directive's pattern `[0-5]\d|\d`, character by character. */
  predicate MinutePattern(p: string) {
    || (|p| == 2 && '0' <= p[0] <= '5' && IsDigit(p[1]))
    || (|p| == 1 && IsDigit(p[0]))
  }

  /** The value of a two-character digit string. */
  lemma ValueOfTwo(p: string)
    requires |p| == 2 && AllDigits(p)
    ensures Value(p) == 10 * DigitValue(p[0]) + DigitValue(p[1])
  {
    var q := p[..1];
    assert q[..0] == [] && q[0] == p[0];
    assert Value(q) == 10 * Value(q[..0]) + DigitValue(q[0]);
    assert Value(p) == 10 * Value(q) + DigitValue(p[1]);
  }

  /** Comparing digits as characters is comparing their values. */
  lemma DigitOrder(c: char, d: char)
    requires IsDigit(c) && IsDigit(d)
    ensures c <= d <==> DigitValue(c) <= DigitValue(d)
    ensures c == d <==> DigitValue(c) == DigitValue(d)
  {
  }

  /** An hour field is accepted exactly when it matches the `%H` pattern. */
  lemma HourFieldIsPattern(p: string)
    ensures ParseField(p, 23).Some? <==> HourPattern(p)
  {
    if |p| == 2 && AllDigits(p) {
      ValueOfTwo(p);
      DigitOrder(p[0], '1');
      DigitOrder(p[0], '2');
      DigitOrder(p[1], '3');
    } else if |p| == 1 && IsDigit(p[0]) {
      assert p[..0] == [];
      assert Value(p) == DigitValue(p[0]);
    }
  }

  /** A minute (or second) field is accepted exactly when it matches the
      `%M` pattern. */
  lemma MinuteFieldIsPattern(p: string)
    ensures ParseField(p, 59).Some? <==> MinutePattern(p)
  {
    if |p| == 2 && AllDigits(p) {
      ValueOfTwo(p);
      DigitOrder(p[0], '5');
    } else if |p| == 1 && IsDigit(p[0]) {
      assert p[..0] == [];
      assert Value(p) == DigitValue(p[0]);
    }
  }

  /** The hour of the time `t`, or `None` when `t` does not match
      `%H:%M:%S` exactly. A match is three colon-separated fields: hours
      0-23, minutes 0-59, seconds 0-59. */
  function ParseHour(t: string): (r: Option<nat>)
    ensures r.Some? ==> r.value < 24
  {
    var parts := Split(t, ':');
    if |parts| != 3 then None
    else
      match (ParseField(parts[0], 23), ParseField(parts[1], 59), ParseField(parts[2], 59))
      case (Some(h), Some(_), Some(_)) => Some(h)
      case _ => None
  }

  /** The strings the conversion reads as a missing time (NaT) rather than
      as an error. */
  const NotATimeStrings: set<string> := {"", "NaT", "nat", "NAT", "nan", "NaN", "NAN"}

  /** What converting one Time cell gives. */
  datatype TimeCell = At(hour: nat) | NaT | Unparsable

  /** Converts one Time cell: a missing-time string gives NaT, a string
      matching the format gives its hour, anything else is an error. */
  function ConvertTime(t: string): (c: TimeCell)
    ensures c.NaT? <==> t in NotATimeStrings
    ensures c.At? <==> t !in NotATimeStrings && ParseHour(t).Some?
    ensures c.At? ==> c.hour < 24 && ParseHour(t) == Some(c.hour)
    ensures c.Unparsable? <==> t !in NotATimeStrings && ParseHour(t).None?
  {
    if t in NotATimeStrings then NaT
    else match ParseHour(t)
      case Some(h) => At(h)
      case None => Unparsable
  }

  /** No missing-time string matches the format, so the two outcomes never
      overlap. */
  lemma NotATimeDoesNotParse(t: string)
    requires t in NotATimeStrings
    ensures ParseHour(t) == None
  {
    SplitNoSeparator(t, ':');
  }

  /** A two-digit field, zero-padded as the spreadsheet writes it. */
  function Pad2(n: nat): (s: string)
    requires n < 100
    ensures |s| == 2 && AllDigits(s) && Value(s) == n
  {
    var s := [DigitChar(n / 10), DigitChar(n % 10)];
    assert s[..1] == [DigitChar(n / 10)] && s[..1][..0] == [];
    assert Value(s[..1]) == n / 10;
    assert Value(s) == 10 * (n / 10) + n % 10;
    s
  }

  /** The three fields of a time joined by colons. */
  lemma JoinThree(a: string, b: string, c: string)
    ensures Join([a, b, c], ':') == a + ":" + b + ":" + c
  {
    assert [a, b, c][..2] == [a, b];
    assert [a, b][..1] == [a];
    assert Join([a, b], ':') == a + [':'] + b;
    assert Join([a, b, c], ':') == a + [':'] + b + [':'] + c;
  }

  /** The time written in the canonical `HH:MM:SS` form. */
  function FormatTime(h: nat, m: nat, s: nat): string
    requires h < 24 && m < 60 && s < 60
  {
    Pad2(h) + ":" + Pad2(m) + ":" + Pad2(s)
  }

  /** Parsing a canonically written time gives back its hour. */
  lemma HourOfFormatTime(h: nat, m: nat, s: nat)
    requires h < 24 && m < 60 && s < 60
    ensures ParseHour(FormatTime(h, m, s)) == Some(h)
  {
    var t := FormatTime(h, m, s);
    JoinThree(Pad2(h), Pad2(m), Pad2(s));
    SplitJoin([Pad2(h), Pad2(m), Pad2(s)], ':');
  }

  /** For a well-formed `HH:MM:SS` string the derived hour is the number
      written in its first two characters, and it lies in 0..23. */
  lemma HourOfWellFormedTime(t: string)
    requires |t| == 8 && t[2] == ':' && t[5] == ':'
    requires AllDigits(t[..2]) && AllDigits(t[3..5]) && AllDigits(t[6..])
    requires Value(t[..2]) <= 23 && Value(t[3..5]) <= 59 && Value(t[6..]) <= 59
    ensures ParseHour(t) == Some(10 * DigitValue(t[0]) + DigitValue(t[1]))
    ensures 10 * DigitValue(t[0]) + DigitValue(t[1]) <= 23
  {
    var parts := [t[..2], t[3..5], t[6..]];
    JoinThree(t[..2], t[3..5], t[6..]);
    assert t == t[..2] + ":" + t[3..5] + ":" + t[6..];
    SplitJoin(parts, ':');
    assert t[..2][..1] == [t[0]];
  }

  /** An hour field above 23 is rejected, so the load fails. */
  lemma HourAboveRangeRejected(t: string)
    requires |Split(t, ':')| == 3
    requires AllDigits(Split(t, ':')[0]) && Value(Split(t, ':')[0]) > 23
    ensures ParseHour(t) == None
  {
  }
}
