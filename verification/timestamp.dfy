/** `format_timestamp` (utils.py): a time in seconds rendered as
    `HH:MM:SS,mmm`, the cue-time format of SubRip subtitle files. Seconds
    are exact reals, so Python's float `//`, `%` and `int()` are written
    out with `Floor`. */
module Timestamp {
  import opened Outcomes
  import opened Text

  /** Python's `int(x)` on a float: truncation toward zero. */
  function PyInt(x: real): int {
    if x >= 0.0 then x.Floor else -((-x).Floor)
  }

  /** Python's `x // d` on floats with a positive divisor. */
  function FloorDiv(x: real, d: real): real
    requires d > 0.0
  {
    (x / d).Floor as real
  }

  /** Python's `x % d` on floats with a positive divisor: the remainder has
      the sign of the divisor. */
  function Mod(x: real, d: real): real
    requires d > 0.0
  {
    x - d * FloorDiv(x, d)
  }

  datatype Fields = Fields(hours: int, minutes: int, seconds: int, millis: int)

  /** The number of seconds the fields denote. */
  function FieldSeconds(f: Fields): real {
    3600.0 * f.hours as real + 60.0 * f.minutes as real + f.seconds as real + f.millis as real / 1000.0
  }

  /** The four numbers `format_timestamp` computes before formatting them.
      Minutes, seconds and milliseconds are always in range, the hours are
      the whole hours in `t`, and together the fields are `t` truncated
      down to a whole millisecond. */
  function Decompose(t: real): (f: Fields)
    ensures f.hours == (t / 3600.0).Floor
    ensures t >= 0.0 ==> f.hours >= 0
    ensures 0 <= f.minutes < 60 && 0 <= f.seconds < 60 && 0 <= f.millis < 1000
    ensures 3600000 * f.hours + 60000 * f.minutes + 1000 * f.seconds + f.millis == (1000.0 * t).Floor
    ensures FieldSeconds(f) == (1000.0 * t).Floor as real / 1000.0
  {
    var hours := PyInt(FloorDiv(t, 3600.0));
    var minutes := PyInt(FloorDiv(Mod(t, 3600.0), 60.0));
    var secs := PyInt(Mod(t, 60.0));
    var millis := PyInt(Mod(t, 1.0) * 1000.0);
    DecomposeFacts(t, hours, minutes, secs, millis);
    Fields(hours, minutes, secs, millis)
  }

  lemma DecomposeFacts(t: real, hours: int, minutes: int, secs: int, millis: int)
    requires hours == PyInt(FloorDiv(t, 3600.0))
    requires minutes == PyInt(FloorDiv(Mod(t, 3600.0), 60.0))
    requires secs == PyInt(Mod(t, 60.0))
    requires millis == PyInt(Mod(t, 1.0) * 1000.0)
    ensures hours == (t / 3600.0).Floor
    ensures 0 <= minutes < 60 && 0 <= secs < 60 && 0 <= millis < 1000
    ensures 3600000 * hours + 60000 * minutes + 1000 * secs + millis == (1000.0 * t).Floor
  {
    var h := (t / 3600.0).Floor;
    assert hours == h;
    var r1 := t - 3600.0 * h as real;
    assert 0.0 <= r1 < 3600.0;
    var m := (r1 / 60.0).Floor;
    assert minutes == m;
    assert 0 <= m < 60;
    assert (t / 60.0).Floor == 60 * h + m;
    var r2 := t - 60.0 * (60 * h + m) as real;
    assert Mod(t, 60.0) == r2;
    assert 0.0 <= r2 < 60.0;
    var s := r2.Floor;
    assert secs == s;
    assert t.Floor == 3600 * h + 60 * m + s;
    var frac := t - (3600 * h + 60 * m + s) as real;
    assert Mod(t, 1.0) == frac;
    assert 0.0 <= frac < 1.0;
    var ms := (frac * 1000.0).Floor;
    assert millis == ms;
    assert 0 <= ms < 1000;
    assert 1000.0 * t == 1000.0 * (3600 * h + 60 * m + s) as real + frac * 1000.0;
  }

  /** `format_timestamp(seconds)`. */
  function FormatTimestamp(t: real): string {
    Render(Decompose(t))
  }

  /** `f"{hours:02d}:{minutes:02d}:{secs:02d},{millis:03d}"`. */
  function Render(f: Fields): string {
    FormatInt(f.hours, 2) + ":" + FormatInt(f.minutes, 2) + ":" + FormatInt(f.seconds, 2)
      + "," + FormatInt(f.millis, 3)
  }

  /** Reads `H…H:MM:SS,mmm` (at least two hour digits) back into its fields. */
  function ParseTimestamp(s: string): Option<Fields> {
    if |s| < 12 || s[|s| - 10] != ':' || s[|s| - 7] != ':' || s[|s| - 4] != ',' then None
    else
      var hours :- ParseNat(s[..|s| - 10]);
      var minutes :- ParseNat(s[|s| - 9..|s| - 7]);
      var secs :- ParseNat(s[|s| - 6..|s| - 4]);
      var millis :- ParseNat(s[|s| - 3..]);
      Some(Fields(hours, minutes, secs, millis))
  }

  /** Fields as `Decompose` produces them for a non-negative time. */
  predicate InRange(f: Fields) {
    f.hours >= 0 && 0 <= f.minutes < 60 && 0 <= f.seconds < 60 && 0 <= f.millis < 1000
  }

  lemma {:induction false} RenderLayout(f: Fields)
    requires InRange(f)
    ensures var s := Render(f);
      && |s| == |FormatInt(f.hours, 2)| + 10
      && (f.hours < 100 ==> |s| == 12)
      && s[|s| - 10] == ':' && s[|s| - 7] == ':' && s[|s| - 4] == ','
      && s[..|s| - 10] == FormatInt(f.hours, 2)
      && s[|s| - 9..|s| - 7] == FormatInt(f.minutes, 2)
      && s[|s| - 6..|s| - 4] == FormatInt(f.seconds, 2)
      && s[|s| - 3..] == FormatInt(f.millis, 3)
  {
    FormatIntRoundTrip(f.hours, 2);
    FormatIntRoundTrip(f.minutes, 2);
    FormatIntRoundTrip(f.seconds, 2);
    FormatIntRoundTrip(f.millis, 3);
    FieldsLayout(FormatInt(f.hours, 2), FormatInt(f.minutes, 2), FormatInt(f.seconds, 2), FormatInt(f.millis, 3));
  }

  /** Where the pieces of `hh:mm:ss,mmm` sit, whatever their contents. */
  lemma FieldsLayout(hh: string, mm: string, ss: string, ms: string)
    requires |mm| == 2 && |ss| == 2 && |ms| == 3
    ensures var s := hh + ":" + mm + ":" + ss + "," + ms;
      && |s| == |hh| + 10
      && s[|s| - 10] == ':' && s[|s| - 7] == ':' && s[|s| - 4] == ','
      && s[..|s| - 10] == hh
      && s[|s| - 9..|s| - 7] == mm
      && s[|s| - 6..|s| - 4] == ss
      && s[|s| - 3..] == ms
  {
    var s := hh + ":" + mm + ":" + ss + "," + ms;
    var n := |hh|;
    assert s[..n] == hh;
    assert s[n + 1..n + 3] == mm;
    assert s[n + 4..n + 6] == ss;
    assert s[n + 7..] == ms;
  }

  /** The layout of a formatted non-negative time: at least two hour digits
      (exactly two below 100 hours), then `:MM:SS,mmm`, and nothing but
      digits besides those three separators. */
  lemma TimestampLayout(t: real)
    requires t >= 0.0
    ensures var s := FormatTimestamp(t);
      && |s| >= 12
      && (t < 360000.0 ==> |s| == 12)
      && s[|s| - 10] == ':' && s[|s| - 7] == ':' && s[|s| - 4] == ','
      && AllDigits(s[..|s| - 10])
      && AllDigits(s[|s| - 9..|s| - 7]) && AllDigits(s[|s| - 6..|s| - 4]) && AllDigits(s[|s| - 3..])
  {
    var f := Decompose(t);
    RenderLayout(f);
    FormatIntRoundTrip(f.hours, 2);
    FormatIntRoundTrip(f.minutes, 2);
    FormatIntRoundTrip(f.seconds, 2);
    FormatIntRoundTrip(f.millis, 3);
  }

  /** A formatted non-negative time holds nothing but digits, the two
      colons and the comma; in particular no blank and no line break. */
  lemma TimestampChars(t: real)
    requires t >= 0.0
    ensures var s := FormatTimestamp(t);
      && (forall k :: 0 <= k < |s| ==> IsDigit(s[k]) || s[k] == ':' || s[k] == ',')
      && ' ' !in s && '\n' !in s
  {
    var s := FormatTimestamp(t);
    var n := |s|;
    TimestampLayout(t);
    forall k | 0 <= k < n
      ensures IsDigit(s[k]) || s[k] == ':' || s[k] == ','
    {
      if k < n - 10 {
        assert s[k] == s[..n - 10][k];
      } else if n - 10 < k < n - 7 {
        assert s[k] == s[n - 9..n - 7][k - (n - 9)];
      } else if n - 7 < k < n - 4 {
        assert s[k] == s[n - 6..n - 4][k - (n - 6)];
      } else if n - 4 < k {
        assert s[k] == s[n - 3..][k - (n - 3)];
      }
    }
  }

  /** Parsing a formatted non-negative time recovers exactly the fields
      `format_timestamp` computed, and so, by `Decompose`, the time itself
      truncated to a whole millisecond. */
  lemma TimestampRoundTrip(t: real)
    requires t >= 0.0
    ensures ParseTimestamp(FormatTimestamp(t)) == Some(Decompose(t))
    ensures FieldSeconds(ParseTimestamp(FormatTimestamp(t)).value) == (1000.0 * t).Floor as real / 1000.0
  {
    var f := Decompose(t);
    RenderLayout(f);
    FormatIntRoundTrip(f.hours, 2);
    FormatIntRoundTrip(f.minutes, 2);
    FormatIntRoundTrip(f.seconds, 2);
    FormatIntRoundTrip(f.millis, 3);
  }
}
