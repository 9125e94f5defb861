/** The decisions `VideoEditor` (editor.py) makes around its ffmpeg calls:
    which transcript segments belong to a clip, the SubRip cue text written
    for them, the names of the resized outputs and of the final clip, and
    the escaping of the subtitle path handed to ffmpeg's `subtitles`
    filter. File names are given relative to the highlight's output
    folder. */
module Editor {
  import opened Outcomes
  import opened Text
  import opened Transcript
  import opened Timestamp

  const BaseClipName: string := "clip.mp4"
  const SrtName: string := "clip.srt"
  const SubtitledClipName: string := "clip_with_subs.mp4"
  const DefaultFormatName: string := "custom"
  const DefaultFormatSize: int := 1080

  // Segment selection (`process_highlight`)

  /** `seg['start'] >= start_time and seg['end'] <= end_time`. */
  predicate Inside(seg: Segment, start: real, end: real) {
    seg.start >= start && seg.end <= end
  }

  /** The segments lying wholly inside the clip, in transcript order. */
  function ClipSegments(segments: seq<Segment>, start: real, end: real): (r: seq<Segment>)
    ensures |r| <= |segments|
    ensures forall seg :: seg in r <==> seg in segments && Inside(seg, start, end)
  {
    if |segments| == 0 then []
    else
      (if Inside(segments[0], start, end) then [segments[0]] else [])
        + ClipSegments(segments[1..], start, end)
  }

  /** Selection works segment by segment: selecting from two lists one
      after the other is selecting from each and concatenating, so the
      selected segments keep their transcript order. */
  lemma {:induction false} ClipAppend(a: seq<Segment>, b: seq<Segment>, start: real, end: real)
    ensures ClipSegments(a + b, start, end) == ClipSegments(a, start, end) + ClipSegments(b, start, end)
  {
    if |a| == 0 {
      assert a + b == b;
    } else {
      assert (a + b)[1..] == a[1..] + b;
      ClipAppend(a[1..], b, start, end);
    }
  }

  /** Lines 342-350 as the loop of `process_highlight`. */
  method SelectClipSegments(segments: seq<Segment>, start: real, end: real) returns (clip: seq<Segment>)
    ensures clip == ClipSegments(segments, start, end)
  {
    clip := [];
    for i := 0 to |segments|
      invariant clip == ClipSegments(segments[..i], start, end)
    {
      assert ClipSegments(segments[..i + 1], start, end)
        == clip + (if Inside(segments[i], start, end) then [segments[i]] else []) by {
        assert segments[..i + 1] == segments[..i] + [segments[i]];
        ClipAppend(segments[..i], [segments[i]], start, end);
      }
      if segments[i].start >= start && segments[i].end <= end {
        clip := clip + [segments[i]];
      }
    }
    assert segments[..|segments|] == segments;
  }

  /** Lines 353-356: the subtitle file, which is written exactly when some
      segment of the transcript lies inside the clip. A missing segment
      list is the empty one. */
  function SrtFile(segments: seq<Segment>, start: real, end: real): (r: Option<string>)
    ensures r.Some? <==> exists i :: 0 <= i < |segments| && Inside(segments[i], start, end)
    ensures r.Some? ==> r.value == SrtName
  {
    var clip := ClipSegments(segments, start, end);
    if |segments| > 0 && |clip| > 0 then
      assert clip[0] in clip;
      Some(SrtName)
    else
      assert forall i :: 0 <= i < |segments| ==> segments[i] in segments;
      None
  }

  // SubRip cues (`create_subtitle_file`)

  /** `max(0, t - start_offset)`: a time re-based to the clip, never below
      zero. */
  function CueTime(t: real, offset: real): (r: real)
    ensures r >= 0.0 && r >= t - offset
    ensures r == t - offset || r == 0.0
  {
    if t - offset > 0.0 then t - offset else 0.0
  }

  /** The `start --> end` line of a cue. */
  function TimeLine(seg: Segment, offset: real): string {
    FormatTimestamp(CueTime(seg.start, offset)) + " --> " + FormatTimestamp(CueTime(seg.end, offset))
  }

  /** Line 253: cue number `index`, its time line, the stripped text and a
      blank line. */
  function Cue(index: nat, seg: Segment, offset: real): string {
    Digits(index) + "\n" + TimeLine(seg, offset) + "\n" + Strip(seg.text) + "\n\n"
  }

  /** The concatenation of `piece(first + i, xs[i])` over the list, as
      `''.join` of a list built with `enumerate(xs, first)`. */
  function Enumerated<T>(xs: seq<T>, first: nat, piece: (nat, T) -> string): string
    decreases |xs|
  {
    if |xs| == 0 then "" else piece(first, xs[0]) + Enumerated(xs[1..], first + 1, piece)
  }

  lemma {:induction false} EnumeratedSnoc<T>(xs: seq<T>, x: T, first: nat, piece: (nat, T) -> string)
    ensures Enumerated(xs + [x], first, piece) == Enumerated(xs, first, piece) + piece(first + |xs|, x)
    decreases |xs|
  {
    if |xs| == 0 {
      assert Enumerated([x][1..], first + 1, piece) == "";
    } else {
      assert (xs + [x])[1..] == xs[1..] + [x];
      EnumeratedSnoc(xs[1..], x, first + 1, piece);
    }
  }

  function CueMaker(offset: real): (nat, Segment) -> string {
    (index: nat, seg: Segment) => Cue(index, seg, offset)
  }

  /** Lines 243-256: the content of the subtitle file, cues numbered from 1. */
  function SrtContent(segments: seq<Segment>, offset: real): string {
    Enumerated(segments, 1, CueMaker(offset))
  }

  /** The loop of lines 243-256: one piece appended per element, numbered
      from 1 as `enumerate(xs, 1)` numbers them. */
  method JoinEnumerated<T>(xs: seq<T>, piece: (nat, T) -> string) returns (content: string)
    ensures content == Enumerated(xs, 1, piece)
  {
    content := "";
    for i := 0 to |xs|
      invariant content == Enumerated(xs[..i], 1, piece)
    {
      EnumeratedSnoc(xs[..i], xs[i], 1, piece);
      assert xs[..i + 1] == xs[..i] + [xs[i]];
      content := content + piece(i + 1, xs[i]);
    }
    assert xs[..|xs|] == xs;
  }

  /** Lines 243-256: the subtitle file's content built cue by cue. */
  method CreateSubtitleContent(segments: seq<Segment>, offset: real) returns (content: string)
    ensures content == SrtContent(segments, offset)
  {
    content := JoinEnumerated(segments, CueMaker(offset));
  }

  /** What a reader of a cue sees: its number, its two times as fields and
      its text. */
  datatype CueRecord = CueRecord(index: nat, start: Fields, end: Fields, text: string)

  /** Reads a `start --> end` line. */
  function ParseTimeLine(line: string): Option<(Fields, Fields)> {
    if ' ' !in line then None
    else
      var i := IndexOf(line, ' ');
      if |line| < i + 5 || line[i..i + 5] != " --> " then None
      else
        var start :- ParseTimestamp(line[..i]);
        var end :- ParseTimestamp(line[i + 5..]);
        Some((start, end))
  }

  /** Reads the lines of a subtitle file, four per cue (number, times,
      text, blank), the file ending with a line break. */
  function ParseCues(lines: seq<string>): Option<seq<CueRecord>>
    decreases |lines|
  {
    if lines == [""] then Some([])
    else if |lines| < 5 || lines[3] != "" then None
    else
      var index :- ParseNat(lines[0]);
      var times :- ParseTimeLine(lines[1]);
      var rest :- ParseCues(lines[4..]);
      Some([CueRecord(index, times.0, times.1, lines[2])] + rest)
  }

  function ParseSrt(content: string): Option<seq<CueRecord>> {
    ParseCues(Split(content, '\n'))
  }

  /** The cue a reader recovers for `seg` numbered `index`. */
  function CueRecordOf(index: nat, seg: Segment, offset: real): CueRecord {
    CueRecord(index, Decompose(CueTime(seg.start, offset)), Decompose(CueTime(seg.end, offset)), Strip(seg.text))
  }

  /** `[f(i, x) for i, x in enumerate(xs, first)]`. */
  function Numbered<T, U>(xs: seq<T>, first: nat, f: (nat, T) -> U): (r: seq<U>)
    ensures |r| == |xs|
    ensures forall i :: 0 <= i < |xs| ==> r[i] == f(first + i, xs[i])
    decreases |xs|
  {
    if |xs| == 0 then [] else [f(first, xs[0])] + Numbered(xs[1..], first + 1, f)
  }

  /** The record of cue `index` for `seg`. */
  function RecordMaker(offset: real): (nat, Segment) -> CueRecord {
    (index: nat, seg: Segment) => CueRecordOf(index, seg, offset)
  }

  /** One cue's four lines in front of more lines. */
  lemma ParseCuesStep(d: string, t: string, x: string, more: seq<string>)
    requires ParseNat(d).Some? && ParseTimeLine(t).Some? && ParseCues(more).Some?
    ensures ParseCues([d, t, x, ""] + more)
      == Some([CueRecord(ParseNat(d).value, ParseTimeLine(t).value.0, ParseTimeLine(t).value.1, x)] + ParseCues(more).value)
  {
    var lines := [d, t, x, ""] + more;
    assert lines[4..] == more;
    assert lines != [""];
  }

  lemma ParseTimeLineOf(a: string, b: string)
    requires ' ' !in a && ParseTimestamp(a).Some? && ParseTimestamp(b).Some?
    ensures ParseTimeLine(a + " --> " + b) == Some((ParseTimestamp(a).value, ParseTimestamp(b).value))
  {
    var line := a + " --> " + b;
    assert line == a + [' '] + ("--> " + b);
    IndexOfAfter(a, ' ', "--> " + b);
    assert line[..|a|] == a;
    assert line[|a|..|a| + 5] == " --> ";
    assert line[|a| + 5..] == b;
  }

  lemma TimeLineRoundTrip(seg: Segment, offset: real)
    ensures '\n' !in TimeLine(seg, offset)
    ensures ParseTimeLine(TimeLine(seg, offset))
      == Some((Decompose(CueTime(seg.start, offset)), Decompose(CueTime(seg.end, offset))))
  {
    var x, y := CueTime(seg.start, offset), CueTime(seg.end, offset);
    TimestampChars(x);
    TimestampChars(y);
    TimestampRoundTrip(x);
    TimestampRoundTrip(y);
    ParseTimeLineOf(FormatTimestamp(x), FormatTimestamp(y));
  }

  /** The lines of three newline-free pieces and an empty one, each
      followed by a newline, and more text. */
  lemma SplitFour(d: string, t: string, x: string, rest: string)
    requires '\n' !in d && '\n' !in t && '\n' !in x
    ensures Split(d + ['\n'] + (t + ['\n'] + (x + ['\n'] + ("" + ['\n'] + rest))), '\n')
      == [d, t, x, ""] + Split(rest, '\n')
  {
    var s2 := x + ['\n'] + ("" + ['\n'] + rest);
    assert Split(s2, '\n') == [x, ""] + Split(rest, '\n') by {
      SplitTwo(x, "", rest);
    }
    SplitTwo(d, t, s2);
    PairsConcat(d, t, x, "", Split(rest, '\n'));
  }

  lemma PairsConcat<T>(a: T, b: T, c: T, d: T, s: seq<T>)
    ensures [a, b] + ([c, d] + s) == [a, b, c, d] + s
  {
  }

  lemma CueLayout(d: string, t: string, x: string, rest: string)
    ensures d + "\n" + t + "\n" + x + "\n\n" + rest == d + ['\n'] + (t + ['\n'] + (x + ['\n'] + ("" + ['\n'] + rest)))
  {
  }

  lemma SplitTwo(d: string, t: string, rest: string)
    requires '\n' !in d && '\n' !in t
    ensures Split(d + ['\n'] + (t + ['\n'] + rest), '\n') == [d, t] + Split(rest, '\n')
  {
    SplitCons(d, '\n', t + ['\n'] + rest);
    SplitCons(t, '\n', rest);
  }

  lemma DigitsNoBreak(n: nat)
    ensures '\n' !in Digits(n)
  {
  }

  /** The lines of a cue followed by more text. */
  lemma CueLines(index: nat, seg: Segment, offset: real, rest: string)
    requires '\n' !in Strip(seg.text)
    ensures Split(Cue(index, seg, offset) + rest, '\n')
      == [Digits(index), TimeLine(seg, offset), Strip(seg.text), ""] + Split(rest, '\n')
  {
    var d, t, x := Digits(index), TimeLine(seg, offset), Strip(seg.text);
    TimeLineRoundTrip(seg, offset);
    DigitsNoBreak(index);
    assert Cue(index, seg, offset) + rest == d + ['\n'] + (t + ['\n'] + (x + ['\n'] + ("" + ['\n'] + rest))) by {
      CueLayout(d, t, x, rest);
    }
    SplitFour(d, t, x, rest);
  }

  /** Reading back a run of cues numbered from `first` on, for segments
      whose stripped text is one line, gives their records. */
  lemma {:induction false} CuesRoundTrip(segments: seq<Segment>, offset: real, first: nat)
    requires forall i :: 0 <= i < |segments| ==> '\n' !in Strip(segments[i].text)
    ensures ParseSrt(Enumerated(segments, first, CueMaker(offset))) == Some(Numbered(segments, first, RecordMaker(offset)))
    decreases |segments|
  {
    if |segments| == 0 {
      assert Split("", '\n') == [""];
    } else {
      var seg := segments[0];
      var rest := Enumerated(segments[1..], first + 1, CueMaker(offset));
      assert Enumerated(segments, first, CueMaker(offset)) == Cue(first, seg, offset) + rest;
      CueLines(first, seg, offset, rest);
      TimeLineRoundTrip(seg, offset);
      DigitsValue(first);
      CuesRoundTrip(segments[1..], offset, first + 1);
      ParseCuesStep(Digits(first), TimeLine(seg, offset), Strip(seg.text), Split(rest, '\n'));
    }
  }

  /** The subtitle file of a clip read back, for segments whose stripped
      text is one line: one cue per segment, in order, cue `i + 1` carrying
      segment `i`'s times re-based to the clip start and clamped at zero (as
      `format_timestamp` decomposed them) and its stripped text. */
  lemma SrtRoundTrip(segments: seq<Segment>, offset: real)
    requires forall i :: 0 <= i < |segments| ==> '\n' !in Strip(segments[i].text)
    ensures ParseSrt(SrtContent(segments, offset)) == Some(Numbered(segments, 1, RecordMaker(offset)))
  {
    CuesRoundTrip(segments, offset, 1);
  }

  /** For a segment selected into a clip, re-basing to the clip start
      needs no clamping for its start, and its end lands no later than the
      clip's length. */
  lemma ClipCueTimes(seg: Segment, start: real, end: real)
    requires Inside(seg, start, end) && start <= end
    ensures CueTime(seg.start, start) == seg.start - start
    ensures CueTime(seg.end, start) <= end - start
  {
  }

  // Output naming (`process_highlight`)

  /** An entry of the `video.formats` configuration list, with the keys it
      may lack. */
  datatype FormatConfig = FormatConfig(name: Option<string>, width: Option<int>, height: Option<int>)

  /** One `resize_video` call: the output file name, the target size and
      the format name. */
  datatype ResizeJob = ResizeJob(output: string, width: int, height: int, formatName: string)

  /** Line 367: `clip_` + the format name with every colon turned into an
      `x` + `.mp4`; the result holds no colon. */
  function ResizedFileName(name: string): (r: string)
    ensures |r| == |name| + 9
    ensures StartsWith(r, "clip_") && r[|r| - 4..] == ".mp4"
    ensures forall i :: 0 <= i < |name| ==> r[i + 5] == if name[i] == ':' then 'x' else name[i]
    ensures ':' !in r
  {
    "clip_" + ReplaceChar(name, ':', 'x') + ".mp4"
  }

  /** Two format names give the same file exactly when they agree once
      their colons are read as `x`. */
  lemma ResizedNamesCollide(a: string, b: string)
    ensures ResizedFileName(a) == ResizedFileName(b) <==> ReplaceChar(a, ':', 'x') == ReplaceChar(b, ':', 'x')
  {
    var ra, rb := ResizedFileName(a), ResizedFileName(b);
    if ra == rb {
      assert ra[5..|ra| - 4] == ReplaceChar(a, ':', 'x');
      assert rb[5..|rb| - 4] == ReplaceChar(b, ':', 'x');
    }
  }

  /** In particular the formats `9:16` and `9x16` write the same file. */
  lemma ColonAndXCollide()
    ensures ResizedFileName("9:16") == ResizedFileName("9x16") == "clip_9x16.mp4"
  {
    ColonReplaced();
    NoColonKept();
    ResizedNamesCollide("9:16", "9x16");
  }

  lemma ColonReplaced()
    ensures ReplaceChar("9:16", ':', 'x') == "9x16"
  {
    var colon := ReplaceChar("9:16", ':', 'x');
    assert colon[0] == '9' && colon[1] == 'x' && colon[2] == '1' && colon[3] == '6';
  }

  lemma NoColonKept()
    ensures ReplaceChar("9x16", ':', 'x') == "9x16"
    ensures ResizedFileName("9x16") == "clip_9x16.mp4"
  {
    assert ':' !in "9x16";
  }

  function GetOr<T>(o: Option<T>, fallback: T): T {
    if o.Some? then o.value else fallback
  }

  /** Lines 362-370: one resize per configured format, in configuration
      order, with the name `custom` and the size 1080x1080 for whatever the
      entry leaves out. */
  function ResizeJobs(formats: seq<FormatConfig>): (jobs: seq<ResizeJob>)
    ensures |jobs| == |formats|
    ensures forall i :: 0 <= i < |formats| ==>
      && jobs[i].formatName == GetOr(formats[i].name, DefaultFormatName)
      && jobs[i].width == GetOr(formats[i].width, DefaultFormatSize)
      && jobs[i].height == GetOr(formats[i].height, DefaultFormatSize)
      && jobs[i].output == ResizedFileName(jobs[i].formatName)
  {
    seq(|formats|, i requires 0 <= i < |formats| =>
      var formatName := GetOr(formats[i].name, DefaultFormatName);
      ResizeJob(ResizedFileName(formatName), GetOr(formats[i].width, DefaultFormatSize),
        GetOr(formats[i].height, DefaultFormatSize), formatName))
  }

  /** An entry that sets nothing is resized to a square of 1080 pixels
      under the name `custom`, into `clip_custom.mp4`. */
  lemma EmptyFormatEntry()
    ensures ResizeJobs([FormatConfig(None, None, None)]) == [ResizeJob("clip_custom.mp4", 1080, 1080, "custom")]
  {
    assert ':' !in DefaultFormatName;
    assert ResizedFileName(DefaultFormatName) == "clip_custom.mp4";
    var jobs := ResizeJobs([FormatConfig(None, None, None)]);
    assert jobs[0] == ResizeJob("clip_custom.mp4", 1080, 1080, "custom");
  }

  /** Job `i` is the last one, in configuration order, with format name `k`. */
  predicate IsLastNamed(jobs: seq<ResizeJob>, k: string, i: int) {
    && 0 <= i < |jobs|
    && jobs[i].formatName == k
    && forall j :: i < j < |jobs| ==> jobs[j].formatName != k
  }

  /** Line 371 over the whole loop: the `resized` dictionary, keyed by
      format name, holding for every name that occurs the output of the
      last job with that name, since a later assignment overwrites an
      earlier one. */
  function ResizedPaths(jobs: seq<ResizeJob>): (m: map<string, string>)
    ensures forall k :: k in m <==> exists i :: 0 <= i < |jobs| && jobs[i].formatName == k
    ensures forall k :: k in m ==> exists i :: IsLastNamed(jobs, k, i) && m[k] == jobs[i].output
    decreases |jobs|
  {
    if |jobs| == 0 then map[]
    else
      var init := jobs[..|jobs| - 1];
      var last := jobs[|jobs| - 1];
      var m := ResizedPaths(init);
      assert jobs == init + [last];
      ResizedPathsStep(init, last, m);
      m[last.formatName := last.output]
  }

  lemma ResizedPathsStep(init: seq<ResizeJob>, last: ResizeJob, m: map<string, string>)
    requires forall k :: k in m <==> exists i :: 0 <= i < |init| && init[i].formatName == k
    requires forall k :: k in m ==> exists i :: IsLastNamed(init, k, i) && m[k] == init[i].output
    ensures var jobs, m' := init + [last], m[last.formatName := last.output];
      && (forall k :: k in m' <==> exists i :: 0 <= i < |jobs| && jobs[i].formatName == k)
      && (forall k :: k in m' ==> exists i :: IsLastNamed(jobs, k, i) && m'[k] == jobs[i].output)
  {
    var jobs, n := init + [last], |init|;
    var m' := m[last.formatName := last.output];
    forall k | k in m'
      ensures exists i :: IsLastNamed(jobs, k, i) && m'[k] == jobs[i].output
    {
      if k == last.formatName {
        assert IsLastNamed(jobs, k, n);
      } else {
        var i :| IsLastNamed(init, k, i) && m[k] == init[i].output;
        assert IsLastNamed(jobs, k, i);
      }
    }
    forall k
      ensures k in m' <==> exists i :: 0 <= i < |jobs| && jobs[i].formatName == k
    {
      if exists i :: 0 <= i < |jobs| && jobs[i].formatName == k {
        var i :| 0 <= i < |jobs| && jobs[i].formatName == k;
        if i < n {
          assert init[i].formatName == k;
        }
      }
      if k in m && k != last.formatName {
        var i :| 0 <= i < n && init[i].formatName == k;
        assert jobs[i].formatName == k;
      }
    }
  }

  /** The dictionary of a whole configuration: every format name that
      occurs, `custom` for an entry without one, maps to the file named
      after it. */
  lemma ResizedPathsOfConfig(formats: seq<FormatConfig>)
    ensures var m := ResizedPaths(ResizeJobs(formats));
      && (forall k :: k in m <==> exists i :: 0 <= i < |formats| && GetOr(formats[i].name, DefaultFormatName) == k)
      && (forall k :: k in m ==> m[k] == ResizedFileName(k))
  {
    var jobs := ResizeJobs(formats);
    ResizedNames(formats, jobs);
    ResizedFiles(jobs);
  }

  lemma ResizedNames(formats: seq<FormatConfig>, jobs: seq<ResizeJob>)
    requires |jobs| == |formats|
    requires forall i :: 0 <= i < |formats| ==> jobs[i].formatName == GetOr(formats[i].name, DefaultFormatName)
    ensures forall k :: k in ResizedPaths(jobs) <==> exists i :: 0 <= i < |formats| && GetOr(formats[i].name, DefaultFormatName) == k
  {
  }

  lemma ResizedFiles(jobs: seq<ResizeJob>)
    requires forall i :: 0 <= i < |jobs| ==> jobs[i].output == ResizedFileName(jobs[i].formatName)
    ensures forall k :: k in ResizedPaths(jobs) ==> ResizedPaths(jobs)[k] == ResizedFileName(k)
  {
    var m := ResizedPaths(jobs);
    forall k | k in m
      ensures m[k] == ResizedFileName(k)
    {
      var i :| IsLastNamed(jobs, k, i) && m[k] == jobs[i].output;
    }
  }

  /** Lines 374-377: the subtitled clip is the final clip exactly when
      subtitles are to be burned in and a subtitle file exists; otherwise
      the plain clip is. */
  function FinalClip(burnSubtitles: bool, srt: Option<string>): (r: string)
    ensures r == SubtitledClipName <==> burnSubtitles && srt.Some?
    ensures r != SubtitledClipName ==> r == BaseClipName
  {
    if burnSubtitles && srt.Some? then SubtitledClipName else BaseClipName
  }

  /** The dictionary `process_highlight` returns, and the subtitle text it
      writes. */
  datatype ClipOutputs = ClipOutputs(
    baseClip: string,
    srt: Option<string>,
    srtContent: Option<string>,
    resized: map<string, string>,
    final: string)

  /** `process_highlight` without its ffmpeg calls: the files a highlight
      produces. A subtitle file with the clip's own segments re-based to
      the clip start exists exactly when some segment lies inside the clip,
      every configured format name maps to its resized file, and the final
      clip carries subtitles exactly when they are to be burned in and
      exist. */
  function ProcessHighlight(start: real, end: real, segments: seq<Segment>, formats: seq<FormatConfig>, burnSubtitles: bool): (r: ClipOutputs)
    ensures r.baseClip == BaseClipName
    ensures r.srt.Some? <==> exists i :: 0 <= i < |segments| && Inside(segments[i], start, end)
    ensures r.srtContent.Some? <==> r.srt.Some?
    ensures r.srtContent.Some? ==> r.srtContent.value == SrtContent(ClipSegments(segments, start, end), start)
    ensures forall k :: k in r.resized <==> exists i :: 0 <= i < |formats| && GetOr(formats[i].name, DefaultFormatName) == k
    ensures forall k :: k in r.resized ==> r.resized[k] == ResizedFileName(k)
    ensures r.final == SubtitledClipName <==> burnSubtitles && r.srt.Some?
  {
    var clip := ClipSegments(segments, start, end);
    var srt := SrtFile(segments, start, end);
    var jobs := ResizeJobs(formats);
    ResizedPathsOfConfig(formats);
    ClipOutputs(
      BaseClipName,
      srt,
      if srt.Some? then Some(SrtContent(clip, start)) else None,
      ResizedPaths(jobs),
      FinalClip(burnSubtitles, srt))
  }

  // The subtitle filter path (`burn_subtitles`)

  /** `s.replace(':', '\\:')`: every colon preceded by a backslash. */
  function EscapeColons(s: string): (r: string)
    ensures |r| > 0 ==> r[0] != ':'
    ensures forall i :: 0 <= i < |r| && r[i] == ':' ==> i > 0 && r[i - 1] == '\\'
    ensures '\\' !in s ==> forall i :: 0 <= i < |r| && r[i] == '\\' ==> i + 1 < |r| && r[i + 1] == ':'
    decreases |s|
  {
    if |s| == 0 then ""
    else
      var head := if s[0] == ':' then "\\:" else [s[0]];
      var tail := EscapeColons(s[1..]);
      EscapeColonsStep(s, head, tail);
      head + tail
  }

  lemma EscapeColonsStep(s: string, head: string, tail: string)
    requires |s| > 0 && head == if s[0] == ':' then "\\:" else [s[0]]
    requires |tail| > 0 ==> tail[0] != ':'
    requires forall i :: 0 <= i < |tail| && tail[i] == ':' ==> i > 0 && tail[i - 1] == '\\'
    requires '\\' !in s[1..] ==> forall i :: 0 <= i < |tail| && tail[i] == '\\' ==> i + 1 < |tail| && tail[i + 1] == ':'
    ensures var r := head + tail;
      && r[0] != ':'
      && (forall i :: 0 <= i < |r| && r[i] == ':' ==> i > 0 && r[i - 1] == '\\')
      && ('\\' !in s ==> forall i :: 0 <= i < |r| && r[i] == '\\' ==> i + 1 < |r| && r[i + 1] == ':')
  {
    var r := head + tail;
    var h := |head|;
    forall i | 0 <= i < |r| && r[i] == ':'
      ensures i > 0 && r[i - 1] == '\\'
    {
      if i >= h {
        assert r[i] == tail[i - h];
        if i > h {
          assert r[i - 1] == tail[i - 1 - h];
        }
      }
    }
    if '\\' !in s {
      forall i | 0 <= i < |r| && r[i] == '\\'
        ensures i + 1 < |r| && r[i + 1] == ':'
      {
        if i >= h {
          assert r[i] == tail[i - h];
          assert r[i + 1] == tail[i + 1 - h];
        }
      }
    }
  }

  /** Undoes `EscapeColons`: a backslash before a colon is dropped. */
  function Unescape(s: string): string
    decreases |s|
  {
    if |s| == 0 then ""
    else if |s| >= 2 && s[0] == '\\' && s[1] == ':' then ":" + Unescape(s[2..])
    else [s[0]] + Unescape(s[1..])
  }

  /** Escaping loses nothing: unescaping gives back the text, whatever
      backslashes it held. */
  lemma {:induction false} UnescapeEscape(s: string)
    ensures Unescape(EscapeColons(s)) == s
    decreases |s|
  {
    if |s| > 0 {
      var tail := EscapeColons(s[1..]);
      UnescapeEscape(s[1..]);
      if s[0] == ':' {
        assert EscapeColons(s) == "\\:" + tail;
        assert ("\\:" + tail)[2..] == tail;
      } else {
        assert EscapeColons(s) == [s[0]] + tail;
        assert ([s[0]] + tail)[1..] == tail;
      }
      assert s == [s[0]] + s[1..];
    }
  }

  /** Line 286: backslashes become forward slashes, then colons are
      escaped. In the result every backslash escapes a colon and every colon
      is escaped. */
  function EscapeFilterPath(path: string): (r: string)
    ensures forall i :: 0 <= i < |r| && r[i] == '\\' ==> i + 1 < |r| && r[i + 1] == ':'
    ensures forall i :: 0 <= i < |r| && r[i] == ':' ==> i > 0 && r[i - 1] == '\\'
  {
    EscapeColons(ReplaceChar(path, '\\', '/'))
  }

  /** The escaped path, unescaped, is the path with forward slashes only. */
  lemma FilterPathRoundTrip(path: string)
    ensures Unescape(EscapeFilterPath(path)) == ReplaceChar(path, '\\', '/')
    ensures '\\' !in Unescape(EscapeFilterPath(path))
  {
    UnescapeEscape(ReplaceChar(path, '\\', '/'));
  }
}
