/** `HighlightExtractor` (highlight.py) without its language-model client:
    the prompt's input truncation, the shape normalisation of the model's
    parsed reply, and the validation that clamps each candidate's duration,
    snaps its start and end to transcript segment boundaries and sorts the
    candidates by start time. */
module Highlights {
  import opened Outcomes
  import opened Text
  import opened JsonValues
  import opened Transcript
  import StableSort

  const TranscriptLimit: nat := 5000
  const SegmentLimit: nat := 100
  const Fence: string := "```"
  const HighlightsKey: string := "highlights"
  const StartKey: string := "start_time"
  const EndKey: string := "end_time"
  const HookKey: string := "hook"
  const SummaryKey: string := "summary"
  const ConfidenceKey: string := "confidence"
  const DefaultHook: string := "Key highlight"
  const DefaultSummary: string := "Important point from the content."
  const DefaultConfidence: real := 0.8
  /** A boundary closer than this many seconds is snapped to. */
  const SnapTolerance: real := 1.0

  /** The exceptions the Python code raises on a malformed reply. */
  datatype Error =
    | MissingRequiredFields  // the ValueError for a candidate without start_time or end_time
    | TypeError              // `in`, item access or item assignment on a value that does not support it
    | KeyError(key: string)  // item access to a missing dictionary key
    | NotANumber             // float() of a JSON string
    | InvalidJson            // the ValueError raised for a reply the JSON parser rejects

  // Prompt input (`_build_prompt`)

  /** The transcript as it goes into the prompt: its first 5000 characters. */
  function PromptTranscript(transcript: string): (r: string)
    ensures |r| == if |transcript| > TranscriptLimit then TranscriptLimit else |transcript|
    ensures r <= transcript
  {
    if |transcript| > TranscriptLimit then transcript[..TranscriptLimit] else transcript
  }

  /** The segments listed in the prompt: the first 100 (`segments[:100]`). */
  function PromptSegments(segments: seq<Segment>): (r: seq<Segment>)
    ensures |r| == if |segments| > SegmentLimit then SegmentLimit else |segments|
    ensures r <= segments
  {
    segments[..if |segments| > SegmentLimit then SegmentLimit else |segments|]
  }

  // Reply normalisation (`_parse_response`)

  /** Lines 202-207: the reply text handed to the JSON parser. */
  function StripFences(response: string): string {
    RemoveFences(Strip(response))
  }

  /** A text that opens with a code fence loses its first line, and also
      its last line when that line opens with a fence too. */
  function RemoveFences(text: string): string {
    if StartsWith(text, Fence) then
      var lines := Split(text, '\n');
      if StartsWith(lines[|lines| - 1], Fence) then
        Join(if |lines| >= 2 then lines[1..|lines| - 1] else [], '\n')
      else
        Join(lines[1..], '\n')
    else
      text
  }

  /** A reply wrapped in an opening and a closing fence line comes out as
      the text between them, whatever that text holds. */
  lemma FencedRoundTrip(first: string, body: string, last: string)
    requires '\n' !in first && '\n' !in last
    requires StartsWith(first, Fence) && StartsWith(last, Fence)
    ensures RemoveFences(first + "\n" + body + "\n" + last) == body
  {
    var text := first + "\n" + body + "\n" + last;
    var lines := Split(text, '\n');
    SplitWrapped(first, body, last, '\n');
    assert lines == [first] + Split(body, '\n') + [last];
    assert lines[1..|lines| - 1] == Split(body, '\n');
    assert StartsWith(text, Fence) by {
      assert text[..|Fence|] == first[..|Fence|];
    }
    JoinSplit(body, '\n');
  }

  /** A reply with an opening fence line but a last line that is no fence
      loses only its first line. */
  lemma OpeningFenceOnly(first: string, body: string, last: string)
    requires '\n' !in first && '\n' !in last
    requires StartsWith(first, Fence) && !StartsWith(last, Fence)
    ensures RemoveFences(first + "\n" + body + "\n" + last) == body + "\n" + last
  {
    var text := first + "\n" + body + "\n" + last;
    var lines := Split(text, '\n');
    SplitWrapped(first, body, last, '\n');
    assert lines == [first] + (Split(body, '\n') + [last]);
    assert lines[1..] == Split(body, '\n') + [last];
    SplitSnoc(body, '\n', last);
    assert StartsWith(text, Fence) by {
      assert text[..|Fence|] == first[..|Fence|];
    }
    JoinSplit(body + "\n" + last, '\n');
  }

  /** The same for a reply of two lines. */
  lemma OpeningFenceTwoLines(first: string, last: string)
    requires '\n' !in first && '\n' !in last
    requires StartsWith(first, Fence) && !StartsWith(last, Fence)
    ensures RemoveFences(first + "\n" + last) == last
  {
    var text := first + "\n" + last;
    SplitCons(first, '\n', last);
    assert Split(last, '\n') == [last];
    assert StartsWith(text, Fence) by {
      assert text[..|Fence|] == first[..|Fence|];
    }
  }

  /** A reply of two fence lines and nothing else comes out empty. */
  lemma TwoFenceLines(first: string, last: string)
    requires '\n' !in first && '\n' !in last
    requires StartsWith(first, Fence) && StartsWith(last, Fence)
    ensures RemoveFences(first + "\n" + last) == ""
  {
    var text := first + "\n" + last;
    SplitCons(first, '\n', last);
    assert Split(last, '\n') == [last];
    assert Split(text, '\n') == [first, last];
    assert StartsWith(text, Fence) by {
      assert text[..|Fence|] == first[..|Fence|];
    }
  }

  /** A one-line reply that opens with a fence is its own first and last
      line, so nothing is left of it; a reply that does not open with a
      fence is left as it is. */
  lemma FenceLineOnly(text: string)
    ensures StartsWith(text, Fence) && '\n' !in text ==> RemoveFences(text) == ""
    ensures !StartsWith(text, Fence) ==> RemoveFences(text) == text
  {
  }

  /** Lines 210-222: the candidates of a reply that the JSON parser read
      as `data`, where `braced` says whether the text it read started with
      `{`. Only then is `highlights` looked for, with Python's `in`: a
      dictionary holding it stands for that key's value, and a value
      without it for the one candidate `data`. A text that does not start
      with `{` stands for `data` itself, whatever keys it has. In the end a
      list is the list of candidates, and any other value one candidate. */
  function Candidates(data: Json, braced: bool): (r: Result<seq<Json>, Error>)
    ensures !braced && data.JArr? ==> r == Ok(data.items)
    ensures !braced && !data.JArr? ==> r == Ok([data])
    ensures braced && data.JObj? && HighlightsKey !in data.fields ==> r == Ok([data])
    ensures braced && data.JObj? && HighlightsKey in data.fields ==>
      var inner := data.fields[HighlightsKey];
      r == Ok(if inner.JArr? then inner.items else [inner])
    ensures braced && !data.JObj? ==> (r.Err? <==> Contains(data, HighlightsKey) != Ok(false))
    ensures braced && !data.JObj? && r.Ok? ==> r.value == [data]
    ensures r.Err? ==> r.error == TypeError
  {
    var highlights :-
      if !braced then Ok(data)
      else
        var present :- Contains(data, HighlightsKey);
        if !present then Ok(JArr([data]))
        else if data.JObj? then Ok(data.fields[HighlightsKey])
        else Err(TypeError);
    Ok(if highlights.JArr? then highlights.items else [highlights])
  }

  /** The two shapes a reply listing candidates `xs` takes, a bare list
      and an object whose `highlights` is that list, both stand for `xs`;
      but an object whose text did not start with `{` is one candidate,
      `highlights` or not. */
  lemma ReplyShapes(xs: seq<Json>, m: map<string, Json>)
    ensures Candidates(JArr(xs), false) == Ok(xs)
    ensures Candidates(JObj(map[HighlightsKey := JArr(xs)]), true) == Ok(xs)
    ensures Candidates(JObj(m), false) == Ok([JObj(m)])
  {
  }

  /** Python's `key in h` for a JSON value: key lookup in a dictionary, a
      substring test in a string, element membership in a list; numbers,
      booleans and `None` raise a TypeError. */
  function Contains(h: Json, key: string): Result<bool, Error> {
    match h
    case JObj(m) => Ok(key in m)
    case JStr(s) => Ok(IsSubstring(key, s))
    case JArr(xs) => Ok(JStr(key) in xs)
    case _ => Err(TypeError)
  }

  /** `if key not in h: h[key] = value`; only a dictionary accepts the
      assignment. */
  function SetDefault(h: Json, key: string, value: Json): Result<Json, Error> {
    var present :- Contains(h, key);
    if present then Ok(h)
    else if h.JObj? then Ok(JObj(h.fields[key := value]))
    else Err(TypeError)
  }

  /** Lines 226-233 for one candidate: the required-field check, then the
      defaults for `hook`, `summary` and `confidence`. A dictionary fails
      exactly when it lacks `start_time` or `end_time`; otherwise it gains
      the defaults for the keys it lacks and keeps every value it had. */
  function FillDefaults(h: Json): (r: Result<Json, Error>)
    ensures h.JObj? ==> (r.Err? <==> StartKey !in h.fields || EndKey !in h.fields)
    ensures h.JObj? && r.Err? ==> r.error == MissingRequiredFields
    ensures h.JObj? && r.Ok? ==>
      && r.value.JObj?
      && r.value.fields.Keys == h.fields.Keys + {HookKey, SummaryKey, ConfidenceKey}
      && (forall k :: k in h.fields ==> r.value.fields[k] == h.fields[k])
      && (HookKey !in h.fields ==> r.value.fields[HookKey] == JStr(DefaultHook))
      && (SummaryKey !in h.fields ==> r.value.fields[SummaryKey] == JStr(DefaultSummary))
      && (ConfidenceKey !in h.fields ==> r.value.fields[ConfidenceKey] == JNum(DefaultConfidence))
    ensures (h.JNull? || h.JBool? || h.JNum?) ==> r == Err(TypeError)
    ensures !h.JObj? && r.Ok? ==> r.value == h
  {
    var hasStart :- Contains(h, StartKey);
    if !hasStart then Err(MissingRequiredFields)
    else
      var hasEnd :- Contains(h, EndKey);
      if !hasEnd then Err(MissingRequiredFields)
      else
        var withHook :- SetDefault(h, HookKey, JStr(DefaultHook));
        var withSummary :- SetDefault(withHook, SummaryKey, JStr(DefaultSummary));
        SetDefault(withSummary, ConfidenceKey, JNum(DefaultConfidence))
  }

  /** Lines 210-235 after the JSON parse: the candidates of the reply with
      their defaults filled in, or the error of the first candidate that
      fails, as the loop of lines 225-233 raises it. */
  function NormalizeCandidates(data: Json, braced: bool): (r: Result<seq<Json>, Error>)
    ensures Candidates(data, braced).Err? ==> r == Err(TypeError)
    ensures Candidates(data, braced).Ok? ==>
      var items := Candidates(data, braced).value;
      && (r.Ok? <==> forall i :: 0 <= i < |items| ==> FillDefaults(items[i]).Ok?)
      && (r.Ok? ==> |r.value| == |items| && forall i :: 0 <= i < |items| ==> r.value[i] == FillDefaults(items[i]).value)
      && (r.Err? ==> exists i :: (0 <= i < |items| && FillDefaults(items[i]) == Err(r.error)
            && forall j :: 0 <= j < i ==> FillDefaults(items[j]).Ok?))
    ensures r.Err? ==> r.error == MissingRequiredFields || r.error == TypeError
    ensures r.Ok? ==> forall i :: 0 <= i < |r.value| ==> HasAllKeys(r.value[i])
  {
    var items :- Candidates(data, braced);
    FillDefaultsErrors(items);
    FilledHaveAllKeys(items);
    MapAll(items, FillDefaults)
  }

  /** Python's `key in h` holds for all five keys a normalised candidate
      is promised: the two times and the three defaulted ones. */
  predicate HasAllKeys(h: Json) {
    && Contains(h, StartKey) == Ok(true)
    && Contains(h, EndKey) == Ok(true)
    && Contains(h, HookKey) == Ok(true)
    && Contains(h, SummaryKey) == Ok(true)
    && Contains(h, ConfidenceKey) == Ok(true)
  }

  /** A candidate that passes the field check has all five keys afterwards. */
  lemma FilledHasAllKeys(h: Json)
    ensures FillDefaults(h).Ok? ==> HasAllKeys(FillDefaults(h).value)
  {
    if FillDefaults(h).Ok? && !h.JObj? {
      assert FillDefaults(h).value == h;
      assert SetDefault(h, HookKey, JStr(DefaultHook)) == Ok(h);
      assert SetDefault(h, SummaryKey, JStr(DefaultSummary)) == Ok(h);
    }
  }

  lemma FilledHaveAllKeys(items: seq<Json>)
    ensures var r := MapAll(items, FillDefaults);
      r.Ok? ==> forall i :: 0 <= i < |r.value| ==> HasAllKeys(r.value[i])
  {
    forall i | 0 <= i < |items|
      ensures FillDefaults(items[i]).Ok? ==> HasAllKeys(FillDefaults(items[i]).value)
    {
      FilledHasAllKeys(items[i]);
    }
  }

  /** The field check raises only the missing-fields error or a type error. */
  lemma FillDefaultsErrors(items: seq<Json>)
    ensures MapAll(items, FillDefaults).Err? ==> MapAll(items, FillDefaults).error in {MissingRequiredFields, TypeError}
  {
    var r := MapAll(items, FillDefaults);
    if r.Err? {
      var i :| 0 <= i < |items| && FillDefaults(items[i]) == Err(r.error);
      FillDefaultsError(items[i]);
    }
  }

  lemma FillDefaultsError(h: Json)
    ensures FillDefaults(h).Err? ==> FillDefaults(h).error == MissingRequiredFields || FillDefaults(h).error == TypeError
  {
  }

  /** Lines 198-240: `_parse_response`, with the JSON parser `json.loads`
      as the input `parse`, `None` standing for a JSONDecodeError, which
      is raised again as a ValueError. The reply is stripped, freed of its
      code fences, parsed, and its candidates normalised. */
  function ParseResponse(response: string, parse: string -> Option<Json>): (r: Result<seq<Json>, Error>)
    ensures parse(StripFences(response)).None? <==> r == Err(InvalidJson)
    ensures r.Ok? ==> forall i :: 0 <= i < |r.value| ==> HasAllKeys(r.value[i])
    ensures r.Err? ==> r.error == InvalidJson || r.error == MissingRequiredFields || r.error == TypeError
  {
    var text := StripFences(response);
    match parse(text)
    case None => Err(InvalidJson)
    case Some(data) => NormalizeCandidates(data, StartsWith(text, "{"))
  }

  /** The text between an opening and a closing fence line is what gets
      parsed, when it has no blank at either end. */
  lemma FencedReplyText(first: string, body: string, last: string)
    requires '\n' !in first && '\n' !in last
    requires StartsWith(first, Fence) && StartsWith(last, Fence) && !IsSpace(last[|last| - 1])
    ensures StripFences(first + "\n" + body + "\n" + last) == body
  {
    var text := first + "\n" + body + "\n" + last;
    assert text[0] == first[0] == '`';
    assert text[|text| - 1] == last[|last| - 1];
    StripKeeps(text);
    FencedRoundTrip(first, body, last);
  }

  /** Wrapping a reply in fence lines changes nothing: the fenced reply is
      read exactly as the bare one, provided the bare one has no blank at
      either end and does not itself open with a fence. */
  lemma FencingIsTransparent(first: string, body: string, last: string, parse: string -> Option<Json>)
    requires '\n' !in first && '\n' !in last
    requires StartsWith(first, Fence) && StartsWith(last, Fence) && !IsSpace(last[|last| - 1])
    requires |body| > 0 && !IsSpace(body[0]) && !IsSpace(body[|body| - 1]) && !StartsWith(body, Fence)
    ensures ParseResponse(first + "\n" + body + "\n" + last, parse) == ParseResponse(body, parse)
  {
    FencedReplyText(first, body, last);
    StripKeeps(body);
    FenceLineOnly(body);
  }

  /** Fence stripping does not strip again, so a fenced object indented by
      a blank is not looked into for `highlights`: it is one candidate, and
      without times of its own the reply fails. */
  lemma IndentedFencedObject(first: string, body: string, last: string, parse: string -> Option<Json>, m: map<string, Json>)
    requires '\n' !in first && '\n' !in last
    requires StartsWith(first, Fence) && StartsWith(last, Fence) && !IsSpace(last[|last| - 1])
    requires |body| > 0 && body[0] == ' '
    requires parse(body) == Some(JObj(m)) && HighlightsKey in m && StartKey !in m
    ensures ParseResponse(first + "\n" + body + "\n" + last, parse) == Err(MissingRequiredFields)
  {
    FencedReplyText(first, body, last);
    IndentedObject(first + "\n" + body + "\n" + last, body, parse, m);
  }

  lemma IndentedObject(text: string, body: string, parse: string -> Option<Json>, m: map<string, Json>)
    requires StripFences(text) == body && |body| > 0 && body[0] == ' '
    requires parse(body) == Some(JObj(m)) && StartKey !in m
    ensures ParseResponse(text, parse) == Err(MissingRequiredFields)
  {
    ParsesUnbraced(text, body, parse, JObj(m));
    UnbracedWithoutStart(m);
  }

  /** A reply whose parsed text starts with a blank is never looked into
      for `highlights`. */
  lemma ParsesUnbraced(text: string, body: string, parse: string -> Option<Json>, data: Json)
    requires StripFences(text) == body && |body| > 0 && body[0] == ' '
    requires parse(body) == Some(data)
    ensures ParseResponse(text, parse) == NormalizeCandidates(data, false)
  {
    BlankStartNotBraced(body);
    ParsedReply(text, parse, data, false);
  }

  lemma BlankStartNotBraced(body: string)
    requires |body| > 0 && body[0] == ' '
    ensures !StartsWith(body, "{")
  {
    assert body[0] != '{';
  }

  /** A reply the parser reads as `data` stands for the normalised
      candidates of `data`. */
  lemma ParsedReply(response: string, parse: string -> Option<Json>, data: Json, braced: bool)
    requires parse(StripFences(response)) == Some(data)
    requires braced == StartsWith(StripFences(response), "{")
    ensures ParseResponse(response, parse) == NormalizeCandidates(data, braced)
  {
  }

  /** An object read from a text not starting with `{` is one candidate,
      and without `start_time` it fails the field check. */
  lemma UnbracedWithoutStart(m: map<string, Json>)
    requires StartKey !in m
    ensures NormalizeCandidates(JObj(m), false) == Err(MissingRequiredFields)
  {
    assert Candidates(JObj(m), false) == Ok([JObj(m)]);
    assert FillDefaults(JObj(m)) == Err(MissingRequiredFields);
  }

  // Validation (`_validate_highlights`)

  /** A candidate after `float(h['start_time'])` and `float(h['end_time'])`;
      `others` holds every other key of the dictionary (hook, summary,
      confidence and whatever else the reply carried). */
  datatype Highlight = Highlight(startTime: real, endTime: real, others: map<string, Json>)

  /** Python's `float(v)` for a JSON value. */
  function PyFloat(v: Json): Result<real, Error> {
    match v
    case JNum(x) => Ok(x)
    case JBool(b) => Ok(if b then 1.0 else 0.0)
    case JStr(_) => Err(NotANumber)
    case _ => Err(TypeError)
  }

  /** Lines 253-254: reads the two times of a candidate dictionary. */
  function ReadHighlight(h: Json): (r: Result<Highlight, Error>)
    ensures r.Ok? <==> (h.JObj? && StartKey in h.fields && EndKey in h.fields
      && PyFloat(h.fields[StartKey]).Ok? && PyFloat(h.fields[EndKey]).Ok?)
    ensures r.Ok? ==>
      && r.value.startTime == PyFloat(h.fields[StartKey]).value
      && r.value.endTime == PyFloat(h.fields[EndKey]).value
      && r.value.others == h.fields - {StartKey, EndKey}
  {
    match h
    case JObj(m) =>
      if StartKey !in m then Err(KeyError(StartKey))
      else
        var start :- PyFloat(m[StartKey]);
        if EndKey !in m then Err(KeyError(EndKey))
        else
          var end :- PyFloat(m[EndKey]);
          Ok(Highlight(start, end, m - {StartKey, EndKey}))
    case _ => Err(TypeError)
  }

  /** Lines 281-282: the dictionary with its two times written back. */
  function WriteHighlight(h: Highlight): Json {
    JObj(h.others[StartKey := JNum(h.startTime)][EndKey := JNum(h.endTime)])
  }

  /** Writing a highlight and reading it back gives the same highlight. */
  lemma ReadWrite(h: Highlight)
    requires StartKey !in h.others && EndKey !in h.others
    ensures ReadHighlight(WriteHighlight(h)) == Ok(h)
  {
    var m := WriteHighlight(h).fields;
    assert m - {StartKey, EndKey} == h.others;
  }

  /** Reading a dictionary with numeric times and writing it back gives the
      same dictionary: validation touches nothing but the two times. */
  lemma WriteRead(m: map<string, Json>)
    requires StartKey in m && EndKey in m && m[StartKey].JNum? && m[EndKey].JNum?
    ensures ReadHighlight(JObj(m)).Ok?
    ensures WriteHighlight(ReadHighlight(JObj(m)).value) == JObj(m)
  {
    var h := ReadHighlight(JObj(m)).value;
    assert WriteHighlight(h).fields == m;
  }

  /** Lines 255-268: the end time after the duration check. Only the end
      moves; the result equals the old end exactly when the duration was
      already within `[minDuration, maxDuration]`, and the new duration lies
      in that range whenever the range is not empty. */
  function ClampEnd(start: real, end: real, minDuration: real, maxDuration: real): (r: real)
    ensures end - start < minDuration ==> r - start == minDuration
    ensures minDuration <= end - start ==> r - start == if end - start > maxDuration then maxDuration else end - start
    ensures r == end <==> minDuration <= end - start <= maxDuration
    ensures minDuration <= maxDuration ==> minDuration <= r - start <= maxDuration
  {
    var duration := end - start;
    if duration < minDuration then start + minDuration
    else if duration > maxDuration then start + maxDuration
    else end
  }

  /** Which boundary of a segment a time is snapped to. */
  datatype Side = Start | End

  function Boundary(seg: Segment, side: Side): real {
    if side == Start then seg.start else seg.end
  }

  /** `abs(boundary - t) < 1.0`. */
  predicate Near(boundary: real, t: real) {
    -SnapTolerance < boundary - t < SnapTolerance
  }

  /** Segment `i` is the last one, in list order, whose boundary is near `t`. */
  predicate IsLastNear(segments: seq<Segment>, side: Side, t: real, i: int) {
    && 0 <= i < |segments|
    && Near(Boundary(segments[i], side), t)
    && forall k :: i < k < |segments| ==> !Near(Boundary(segments[k], side), t)
  }

  predicate NoneNear(segments: seq<Segment>, side: Side, t: real) {
    forall k :: 0 <= k < |segments| ==> !Near(Boundary(segments[k], side), t)
  }

  /** Lines 272-279 for one side: the boundary of the LAST segment within
      the tolerance of `t` (not the nearest one), or `t` itself when no
      segment is that close. Either way the result is within the tolerance
      of `t`. */
  function Snap(segments: seq<Segment>, side: Side, t: real): (r: real)
    ensures (exists i :: IsLastNear(segments, side, t, i) && r == Boundary(segments[i], side))
         || (NoneNear(segments, side, t) && r == t)
    ensures -SnapTolerance < r - t < SnapTolerance
  {
    if |segments| == 0 then t
    else
      var last := Boundary(segments[|segments| - 1], side);
      if Near(last, t) then
        assert IsLastNear(segments, side, t, |segments| - 1);
        last
      else
        var r := Snap(segments[..|segments| - 1], side, t);
        assert forall i :: IsLastNear(segments[..|segments| - 1], side, t, i) ==> IsLastNear(segments, side, t, i);
        r
  }

  /** Lines 272-279 as the loop of `_validate_highlights`: both boundaries in one pass,
      each overwritten by every later segment that is near enough. */
  method SnapBoundaries(segments: seq<Segment>, start: real, end: real) returns (bestStart: real, bestEnd: real)
    ensures bestStart == Snap(segments, Start, start)
    ensures bestEnd == Snap(segments, End, end)
  {
    bestStart := start;
    bestEnd := end;
    for i := 0 to |segments|
      invariant bestStart == Snap(segments[..i], Start, start)
      invariant bestEnd == Snap(segments[..i], End, end)
    {
      assert segments[..i + 1][..i] == segments[..i];
      if Near(segments[i].start, start) {
        bestStart := segments[i].start;
      }
      if Near(segments[i].end, end) {
        bestEnd := segments[i].end;
      }
    }
    assert segments[..|segments|] == segments;
  }

  /** Lines 253-282 for one candidate. The start snaps against the raw start
      time and the end against the clamped end time; everything but the two
      times passes through, and nothing forces the times to be
      non-negative. */
  function AdjustHighlight(h: Highlight, segments: seq<Segment>, minDuration: real, maxDuration: real): (r: Highlight)
    ensures r.others == h.others
    ensures (exists i :: IsLastNear(segments, Start, h.startTime, i) && r.startTime == segments[i].start)
         || (NoneNear(segments, Start, h.startTime) && r.startTime == h.startTime)
    ensures var end := ClampEnd(h.startTime, h.endTime, minDuration, maxDuration);
      || (exists i :: IsLastNear(segments, End, end, i) && r.endTime == segments[i].end)
      || (NoneNear(segments, End, end) && r.endTime == end)
    ensures -SnapTolerance < r.startTime - h.startTime < SnapTolerance
    ensures -SnapTolerance < r.endTime - ClampEnd(h.startTime, h.endTime, minDuration, maxDuration) < SnapTolerance
  {
    var end := ClampEnd(h.startTime, h.endTime, minDuration, maxDuration);
    Highlight(Snap(segments, Start, h.startTime), Snap(segments, End, end), h.others)
  }

  /** Snapping takes the last boundary within the tolerance, not the
      nearest one: a start of 10.0 goes to 10.9 although a segment starts
      exactly at 10.0. */
  lemma SnapTakesLastNotNearest()
    ensures Snap([Segment(10.0, 11.0, ""), Segment(10.9, 12.0, "")], Start, 10.0) == 10.9
  {
  }

  /** The duration check runs before snapping, so an adjusted highlight can
      end up longer than `maxDuration`: with both bounds at 6 seconds, the
      candidate 0.5-6.5 keeps its end and has its start snapped to 0.0. */
  lemma AdjustedDurationCanExceedMax()
    ensures var r := AdjustHighlight(Highlight(0.5, 6.5, map[]), [Segment(0.0, 100.0, "")], 6.0, 6.0);
      r.startTime == 0.0 && r.endTime == 6.5 && r.endTime - r.startTime > 6.0
  {
  }

  function StartOf(h: Highlight): real {
    h.startTime
  }

  function AdjustAll(hs: seq<Highlight>, segments: seq<Segment>, minDuration: real, maxDuration: real): (r: seq<Highlight>)
    ensures |r| == |hs|
    ensures forall i :: 0 <= i < |hs| ==> r[i] == AdjustHighlight(hs[i], segments, minDuration, maxDuration)
  {
    seq(|hs|, i requires 0 <= i < |hs| => AdjustHighlight(hs[i], segments, minDuration, maxDuration))
  }

  /** `_validate_highlights` on read candidates: every candidate adjusted,
      none dropped, merged or added, then stably sorted by start time, so
      that candidates with equal start times keep their input order. */
  function ValidateHighlights(hs: seq<Highlight>, segments: seq<Segment>, minDuration: real, maxDuration: real): (r: seq<Highlight>)
    ensures |r| == |hs|
    ensures multiset(r) == multiset(AdjustAll(hs, segments, minDuration, maxDuration))
    ensures StableSort.SortedBy(r, StartOf)
    ensures forall k :: StableSort.WithKey(r, StartOf, k) == StableSort.WithKey(AdjustAll(hs, segments, minDuration, maxDuration), StartOf, k)
  {
    StableSort.Sort(AdjustAll(hs, segments, minDuration, maxDuration), StartOf)
  }

  /** Adjusting and sorting moves highlights around but never adds a time
      key to what they carry besides their times. */
  lemma ValidatedOthers(hs: seq<Highlight>, segments: seq<Segment>, minDuration: real, maxDuration: real)
    requires forall j :: 0 <= j < |hs| ==> StartKey !in hs[j].others && EndKey !in hs[j].others
    ensures var sorted := ValidateHighlights(hs, segments, minDuration, maxDuration);
      forall i :: 0 <= i < |sorted| ==> StartKey !in sorted[i].others && EndKey !in sorted[i].others
  {
    var adjusted := AdjustAll(hs, segments, minDuration, maxDuration);
    var sorted := ValidateHighlights(hs, segments, minDuration, maxDuration);
    forall i | 0 <= i < |sorted|
      ensures StartKey !in sorted[i].others && EndKey !in sorted[i].others
    {
      assert sorted[i] in multiset(sorted);
      assert sorted[i] in multiset(adjusted);
      var j :| 0 <= j < |adjusted| && adjusted[j] == sorted[i];
    }
  }

  /** Every written highlight reads back as itself. */
  lemma ReadWriteAll(hs: seq<Highlight>)
    requires forall j :: 0 <= j < |hs| ==> StartKey !in hs[j].others && EndKey !in hs[j].others
    ensures forall i :: 0 <= i < |hs| ==> ReadHighlight(WriteHighlight(hs[i])) == Ok(hs[i])
  {
    forall i | 0 <= i < |hs|
      ensures ReadHighlight(WriteHighlight(hs[i])) == Ok(hs[i])
    {
      ReadWrite(hs[i]);
    }
  }

  /** Every highlight written back into its dictionary, in order. */
  function WriteAll(hs: seq<Highlight>): (out: seq<Json>)
    ensures |out| == |hs|
    ensures forall i :: 0 <= i < |hs| ==> out[i] == WriteHighlight(hs[i])
  {
    seq(|hs|, i requires 0 <= i < |hs| => WriteHighlight(hs[i]))
  }

  /** Written highlights carry numeric times, read back as themselves and
      keep the order of their start times. */
  lemma WrittenFacts(hs: seq<Highlight>)
    requires forall j :: 0 <= j < |hs| ==> StartKey !in hs[j].others && EndKey !in hs[j].others
    requires StableSort.SortedBy(hs, StartOf)
    ensures var out := WriteAll(hs);
      && (forall i :: 0 <= i < |out| ==> ReadHighlight(out[i]) == Ok(hs[i]))
      && (forall i :: 0 <= i < |out| ==> HasNumericTimes(out[i]))
      && (forall i, j :: 0 <= i < j < |out| ==> StartTimeOf(out[i]) <= StartTimeOf(out[j]))
  {
    ReadWriteAll(hs);
    var out := WriteAll(hs);
    assert forall i :: 0 <= i < |out| ==> StartTimeOf(out[i]) == hs[i].startTime;
  }

  /** `_validate_highlights` on the candidate dictionaries: the error of the
      first candidate whose times cannot be read, or one dictionary per
      candidate, sorted by start time, each reading back as the highlight
      of the same rank that validation makes of the read candidates. */
  function ValidateCandidates(items: seq<Json>, segments: seq<Segment>, minDuration: real, maxDuration: real): (r: Result<seq<Json>, Error>)
    ensures r.Ok? <==> forall i :: 0 <= i < |items| ==> ReadHighlight(items[i]).Ok?
    ensures r.Err? ==> exists i :: (0 <= i < |items| && ReadHighlight(items[i]) == Err(r.error)
      && forall j :: 0 <= j < i ==> ReadHighlight(items[j]).Ok?)
    ensures r.Ok? ==> |r.value| == |items|
    ensures r.Ok? ==> forall i :: 0 <= i < |r.value| ==>
      ReadHighlight(r.value[i]) == Ok(ValidateHighlights(MapAll(items, ReadHighlight).value, segments, minDuration, maxDuration)[i])
    ensures r.Ok? ==> forall i :: 0 <= i < |r.value| ==> HasNumericTimes(r.value[i])
    ensures r.Ok? ==> forall i, j :: 0 <= i < j < |r.value| ==>
      StartTimeOf(r.value[i]) <= StartTimeOf(r.value[j])
  {
    var hs :- MapAll(items, ReadHighlight);
    var sorted := ValidateHighlights(hs, segments, minDuration, maxDuration);
    ValidatedOthers(hs, segments, minDuration, maxDuration);
    WrittenFacts(sorted);
    Ok(WriteAll(sorted))
  }

  /** A dictionary whose two times are JSON numbers, as lines 281-282 leave
      every validated candidate. */
  predicate HasNumericTimes(h: Json) {
    h.JObj? && StartKey in h.fields && EndKey in h.fields && h.fields[StartKey].JNum? && h.fields[EndKey].JNum?
  }

  /** The validated dictionaries are exactly the validated highlights
      written back, rank by rank. */
  lemma ValidatedAreWritten(items: seq<Json>, segments: seq<Segment>, minDuration: real, maxDuration: real)
    ensures var r := ValidateCandidates(items, segments, minDuration, maxDuration);
      r.Ok? ==> forall i :: 0 <= i < |r.value| ==>
        r.value[i] == WriteHighlight(ValidateHighlights(MapAll(items, ReadHighlight).value, segments, minDuration, maxDuration)[i])
  {
  }

  /** The numeric `start_time` of a validated dictionary, 0 for anything else. */
  function StartTimeOf(h: Json): real {
    if h.JObj? && StartKey in h.fields && h.fields[StartKey].JNum? then h.fields[StartKey].num else 0.0
  }

  /** `extract_highlights` once the model has replied (lines 87-90): the
      reply parsed by `parse`, its candidates normalised and validated. It
      fails exactly when parsing fails or some candidate's times cannot be
      read, with the first error in that order. */
  function ExtractHighlights(response: string, parse: string -> Option<Json>, segments: seq<Segment>, minDuration: real, maxDuration: real): (r: Result<seq<Json>, Error>)
    ensures var items := ParseResponse(response, parse);
      r.Ok? <==> items.Ok? && forall i :: 0 <= i < |items.value| ==> ReadHighlight(items.value[i]).Ok?
    ensures ParseResponse(response, parse).Err? ==> r == ParseResponse(response, parse)
    ensures var items := ParseResponse(response, parse);
      items.Ok? && r.Err? ==> exists i :: (0 <= i < |items.value| && ReadHighlight(items.value[i]) == Err(r.error)
        && forall j :: 0 <= j < i ==> ReadHighlight(items.value[j]).Ok?)
    ensures r.Ok? ==> forall i :: 0 <= i < |r.value| ==> HasNumericTimes(r.value[i])
    ensures var items := ParseResponse(response, parse);
      r.Ok? ==> |r.value| == |items.value| && forall i :: 0 <= i < |r.value| ==>
        ReadHighlight(r.value[i]) == Ok(ValidateHighlights(MapAll(items.value, ReadHighlight).value, segments, minDuration, maxDuration)[i])
    ensures var text := StripFences(response);
      parse(text).Some? && Candidates(parse(text).value, StartsWith(text, "{")).Ok? ==>
        var cands := Candidates(parse(text).value, StartsWith(text, "{")).value;
        (exists i :: 0 <= i < |cands| && cands[i].JObj? && (StartKey !in cands[i].fields || EndKey !in cands[i].fields)) ==> r.Err?
  {
    var items :- ParseResponse(response, parse);
    ValidateCandidates(items, segments, minDuration, maxDuration)
  }

  /** A well-formed candidate keeps its times through the defaults and so
      can be read. */
  lemma WellFormedReads(h: Json)
    requires HasNumericTimes(h)
    ensures FillDefaults(h).Ok? && ReadHighlight(FillDefaults(h).value).Ok?
  {
    var f := FillDefaults(h).value;
    assert f.fields[StartKey] == h.fields[StartKey];
    assert f.fields[EndKey] == h.fields[EndKey];
  }

  /** A reply that parses to a list (so its text does not start with `{`)
      of dictionaries with numeric times yields one validated highlight per dictionary. */
  lemma WellFormedReply(response: string, parse: string -> Option<Json>, xs: seq<Json>, segments: seq<Segment>, minDuration: real, maxDuration: real)
    requires parse(StripFences(response)) == Some(JArr(xs)) && !StartsWith(StripFences(response), "{")
    requires forall i :: 0 <= i < |xs| ==> HasNumericTimes(xs[i])
    ensures ExtractHighlights(response, parse, segments, minDuration, maxDuration).Ok?
    ensures |ExtractHighlights(response, parse, segments, minDuration, maxDuration).value| == |xs|
  {
    var text := StripFences(response);
    assert Candidates(JArr(xs), false) == Ok(xs);
    forall i | 0 <= i < |xs|
      ensures FillDefaults(xs[i]).Ok? && ReadHighlight(FillDefaults(xs[i]).value).Ok?
    {
      WellFormedReads(xs[i]);
    }
    var items := ParseResponse(response, parse).value;
    assert |items| == |xs|;
    assert forall i :: 0 <= i < |items| ==> items[i] == FillDefaults(xs[i]).value;
  }
}
