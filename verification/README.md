# media-reels-generator: a Dafny model of highlight validation, subtitles and output naming

media-reels-generator turns a long recording into short clips. A speech
recogniser transcribes the recording into timed segments. A language model
proposes highlights, each with a start time, an end time, a hook and a
summary. The editor then cuts each highlight into a clip, writes SubRip
subtitles for it, and resizes it into the configured formats.

This project models the pure decisions inside that pipeline and proves
properties of them. Times are exact `real` seconds. Python's float `//`, `%`
and `int()` are written out with `Floor`.

The modules:

- `Outcomes` (outcomes.dfy): `Option` and `Result`, plus `MapAll`, which
  applies a fallible function to each element and stops at the first error,
  as a Python loop that raises does.
- `Text` (text.dfy): the Python `str` operations the code relies on.
  - `strip`, with the Unicode whitespace set, and `lower`;
  - `replace` of one character, `split` and `join`;
  - `startswith`;
  - `format(n, "0Nd")` and its decimal parser.
- `JsonValues` (json.dfy) and `Transcript` (transcript.dfy): a parsed JSON
  value, and a transcript segment.
- `Timestamp` (timestamp.dfy): `format_timestamp` and a parser that reads
  its output back.
- `StableSort` (stable_sort.dfy): a stable insertion sort by a real key.
  It stands for Python's `list.sort(key=…)`. The sort is proved sorted, a
  permutation of its input, and order-preserving on equal keys. It is also
  proved to be the only list with those properties.
- `Highlights` (highlights.dfy): `HighlightExtractor` without its
  language-model client. It covers:
  - the prompt's input truncation;
  - fence stripping and shape normalisation of the parsed reply;
  - `_validate_highlights`, which clamps the duration, snaps to segment
    boundaries and stably sorts.
- `Editor` (editor.dfy): the pure parts of
  `process_highlight`.
  - segment selection and the subtitle decision;
  - SubRip cue text, with a parser proving the round trip;
  - resized file names and the `resized` dictionary;
  - the choice of the final clip;
  - the colon escaping of the subtitle filter path.
- `MediaFiles` (media_files.dfy): the pure helpers of utils.py.
  - suffix classification;
  - the `validate_file` decision;
  - highlight folder names;
  - caption file text.

These formatting operations have a parser partner, and a lemma shows the
parser recovers what was formatted: timestamps, cues and whole subtitle
files, folder names, caption files, and `split`/`join`. The escaped filter
path reads back only as the path with every backslash turned into `/`.
The resized file name has no parser: it is lossy, since a colon and an `x`
in a format name give the same file (`Editor.ResizedNamesCollide`).

Several behaviours of the code are stated exactly as written, even where a
reader might expect otherwise.

- Snapping takes the LAST segment boundary within 1.0 s, not the nearest
  one (`Highlights.SnapTakesLastNotNearest`).
- The start snaps against the raw start. The end snaps against the clamped
  end.
- Nothing clamps times at zero, and overlapping highlights are kept.
- The duration check runs before snapping, so a validated highlight can be
  longer than the maximum (`Highlights.AdjustedDurationCanExceedMax`).
  Validation is therefore not idempotent.
- The `format_timestamp` docstring (utils.py:250) promises `HH:MM:SS.mmm`,
  but the code writes a comma before the milliseconds (utils.py:262). The
  model follows the code.

## Model

| member | source | states |
|---|---|---|
| Outcomes.MapAll | highlight.py:225-227 | Every element succeeds exactly when the whole loop does. On success the results are the elementwise results, in order. On failure the error is that of the first failing element, and all elements before it succeeded. |
| Text.Strip | editor.py:251 | `str.strip()`: the result is a contiguous slice of the input, neither end of it is whitespace, and everything cut off on either side is whitespace. |
| Text.Lower | utils.py:126 | `str.lower()` as far as it can change a suffix from the supported lists: the length is kept, no ASCII capital and no KELVIN SIGN (U+212A) is left, each ASCII capital becomes its small letter, the Kelvin sign becomes `k`, and every other character is kept. |
| Text.ReplaceChar | editor.py:367 | Replacing one character keeps the length and changes exactly the positions holding that character. After replacing it by a different character none of it is left, and a text without it comes back unchanged. |
| Text.ReplaceCharBack | editor.py:367 | Replacing back undoes a replacement whenever the replacing character did not occur in the text beforehand. |
| Text.Split | highlight.py:206 | `str.split(sep)` gives at least one part, and no part contains the separator. |
| Text.JoinSplit | highlight.py:206-207 | Joining the parts of a split with the same separator gives back the text. |
| Text.SplitJoin | highlight.py:206-207 | Splitting a join of separator-free parts gives back the parts. |
| Text.SplitWrapped | highlight.py:206 | A text made of a first line, a body and a last line splits into the first line, the body's lines and the last line. |
| Text.FormatIntRoundTrip | utils.py:262 | `{n:0Nd}` for a non-negative `n` is all digits, has width `max(N, number of digits)`, and parses back to `n`. |
| Timestamp.Decompose | utils.py:258-261 | For a non-negative time, hours are the whole hours and are non-negative. Minutes and seconds lie in 0..59 and milliseconds in 0..999. The fields together denote the time truncated down to a whole millisecond: `3600000h + 60000m + 1000s + ms == floor(1000 t)`. |
| Timestamp.TimestampLayout | utils.py:262 | A formatted non-negative time is `H…H:MM:SS,mmm`, with a comma before the milliseconds. It is exactly 12 characters below 100 hours and is digits apart from the three separators. |
| Timestamp.TimestampChars | utils.py:262 | A formatted non-negative time holds only digits, two colons and a comma, so it contains no blank and no line break. |
| Timestamp.TimestampRoundTrip | utils.py:248-262 | Parsing the text `FormatTimestamp` writes for a non-negative time gives back exactly the computed fields. Those fields denote the time truncated to a millisecond. |
| StableSort.Sort | highlight.py:287 | The sorted list is a permutation of the input and is non-decreasing by key. For every key value, the elements with that key appear in their input order, which is the stability of `list.sort`. |
| StableSort.StableSortUnique | highlight.py:287 | Two lists that are both sorted by key and that agree on the order of elements within every key are equal. |
| StableSort.SortIsUnique | highlight.py:287 | Any sorted list that keeps each key's input order is the result of `Sort`, so `Sort` is the stable sort. |
| Highlights.PromptTranscript | highlight.py:113 | The prompt's transcript is a prefix of the transcript, cut to 5000 characters when it is longer. |
| Highlights.PromptSegments | highlight.py:109 | The prompt's segments are a prefix of the segment list, cut to the first 100. |
| Highlights.FencedRoundTrip | highlight.py:205-207 | `RemoveFences`: a reply whose first and last lines open with a code fence comes out as exactly the body between them. |
| Highlights.OpeningFenceOnly | highlight.py:205-207 | With an opening fence line and a last line that is not a fence, only the first line is removed. |
| Highlights.OpeningFenceTwoLines | highlight.py:205-207 | A two-line reply that opens with a fence and does not close with one comes out as its second line. |
| Highlights.FenceLineOnly | highlight.py:205-207 | `RemoveFences`: a one-line fence comes out empty, and a text that does not open with a fence is left unchanged. |
| Highlights.TwoFenceLines | highlight.py:205-207 | A reply of an opening and a closing fence line and nothing between comes out empty. |
| Highlights.FencedReplyText | highlight.py:202-207 | `StripFences`: a fenced reply whose last line ends in a non-blank is stripped and freed of its fences, leaving exactly the text between the fence lines, blanks included. |
| Highlights.Candidates | highlight.py:210-222 | Which candidates a parsed reply stands for. Only when the parsed text started with `{` is `highlights` looked for: an object holding it stands for that value, and one without it is a single candidate; a non-object there fails with a type error exactly when Python's `in` raises or finds the key. When the text did not start with `{`, the value itself is taken, whatever keys it has. A list is the candidates themselves, anything else a single candidate. |
| Highlights.ReplyShapes | highlight.py:210-222 | A bare list and an object whose `highlights` is that list both stand for the list's candidates, while an object whose text did not start with `{` is one candidate even when it has `highlights`. |
| Highlights.FillDefaults | highlight.py:225-233 | A dictionary fails with the missing-fields error exactly when it lacks `start_time` or `end_time`. Otherwise it gains `hook`, `summary` and `confidence` defaults for the keys it lacks, and keeps every existing key and value. A number, boolean or null raises a type error. |
| Highlights.NormalizeCandidates | highlight.py:210-235 | A shape error of the reply is a type error. Otherwise the reply normalises exactly when every candidate passes the field check; the result is the candidates with their defaults filled, in order; and an error is that of the first failing candidate, all candidates before it having passed. Every error is a missing-fields or a type error, and every normalised candidate has all five keys in Python's `in` sense. |
| Highlights.ParseResponse | highlight.py:198-240 | The reply fails as invalid JSON exactly when the parser rejects its stripped, unfenced text. Every candidate it returns has all five keys in Python's `in` sense: `start_time` and `end_time`, which the check of lines 226-227 demands, and `hook`, `summary` and `confidence`, which lines 228-233 fill in. Every error is invalid JSON, missing fields or a type error. |
| Highlights.FencingIsTransparent | highlight.py:202-222 | Wrapping a reply without blanks at its ends in fence lines does not change how it is read, provided it does not itself open with a fence. |
| Highlights.IndentedFencedObject | highlight.py:202-228 | Fence removal does not strip again, so a fenced object indented by a blank is not looked into for `highlights`; lacking its own times, the reply fails with the missing-fields error. |
| Highlights.ReadHighlight | highlight.py:253-254 | The times can be read exactly when the value is a dictionary and both keys are present and convertible by `float()` (`PyFloat`: a number is itself, a boolean is 1 or 0, a string or anything else is an error). The read highlight carries the converted times and every other key unchanged. |
| Highlights.ReadWrite | highlight.py:281-282 | Writing a highlight's times into its dictionary (`WriteHighlight`) and reading them back gives the same highlight. |
| Highlights.WriteRead | highlight.py:253-254 | Reading a dictionary with numeric times and writing them back gives the same dictionary. |
| Highlights.ClampEnd | highlight.py:255-268 | A too-short candidate's end becomes exactly `start + min`, and a too-long one's becomes `start + max`. The end is unchanged exactly when the duration lies within `[min, max]`, endpoints included. When `min <= max`, the new duration lies within the bounds. |
| Highlights.Snap | highlight.py:272-279 | A time snaps to the boundary of the last segment, in list order, that lies strictly within 1.0 s of it. If no segment does, the time is kept. Either way it moves by less than 1.0 s. |
| Highlights.SnapBoundaries | highlight.py:272-279 | The single loop of `_validate_highlights` computes both snapped boundaries at once: the start against segment starts and the end against segment ends. |
| Highlights.SnapTakesLastNotNearest | highlight.py:275-279 | A start of 10.0 snaps to 10.9 even though a segment starts exactly at 10.0: the last match wins, not the nearest. |
| Highlights.AdjustHighlight | highlight.py:253-284 | Every key other than the two times passes through. The start snaps against the raw start and the end against the clamped end, each to the last segment within 1.0 s. The start moves by less than 1.0 s, and the end lies within 1.0 s of the clamped end. |
| Highlights.AdjustedDurationCanExceedMax | highlight.py:255-282 | A candidate with exactly the maximum duration can have its start snapped earlier, so the adjusted highlight is longer than the maximum. |
| Highlights.ValidateHighlights | highlight.py:250-289 | The output has as many highlights as the input and is a permutation of the adjusted candidates: nothing is dropped, merged or added. It is sorted by start time, and candidates with equal start times keep their input order. |
| Highlights.ValidateCandidates | highlight.py:242-289 | Validation succeeds exactly when every candidate's times can be read, and otherwise fails with the error of the first candidate that cannot be read. On success there is one dictionary per candidate, each with numeric `start_time` and `end_time`, in non-decreasing order of start time, and the dictionary of rank `i` reads back as the highlight of rank `i` of `ValidateHighlights` on the read candidates. |
| Highlights.ValidatedAreWritten | highlight.py:281-289 | Each validated dictionary is the validated highlight of the same rank with its two times written back as numbers, every other key kept. |
| Highlights.ExtractHighlights | highlight.py:87-90 | Extraction succeeds exactly when the reply parses and normalises and every candidate's times can be read; a parse or normalisation error is passed on unchanged, and otherwise the error is that of the first candidate whose times cannot be read. On success every dictionary has numeric `start_time` and `end_time`, and the dictionary of rank `i` reads back as the validated highlight of rank `i`. A dictionary candidate without `start_time` or `end_time` makes it fail. |
| Highlights.WellFormedReply | highlight.py:87-90 | A reply that parses to a list of dictionaries with numeric times yields one validated highlight per dictionary. |
| Editor.ClipSegments | editor.py:342-350 | The clip's segments are exactly the segments that start no earlier than the clip and end no later than it. |
| Editor.ClipAppend | editor.py:342-350 | Selection distributes over concatenation, so the chosen segments keep their original order. |
| Editor.SelectClipSegments | editor.py:342-350 | The loop of `process_highlight` selects the same segments as `ClipSegments`. |
| Editor.SrtFile | editor.py:353-356 | A subtitle file `clip.srt` is produced exactly when some segment lies inside the clip. |
| Editor.CueTime | editor.py:245-246 | A cue time is the time re-based to the clip, or 0 when that would be negative, so it is never negative. |
| Editor.ClipCueTimes | editor.py:245-246 | For a segment inside the clip, no clamping happens at the start, and the re-based end is no later than the clip's length. |
| Editor.EnumeratedSnoc | editor.py:243-256 | Appending one more segment appends exactly one more cue, numbered after the previous ones. |
| Editor.JoinEnumerated | editor.py:243-256 | The loop over `enumerate(…, 1)` builds the concatenation of the numbered pieces. |
| Editor.CreateSubtitleContent | editor.py:243-256 | The loop builds the subtitle content defined cue by cue. |
| Editor.Numbered | editor.py:244 | Element `i` is numbered `first + i`, consecutively in input order. |
| Editor.TimeLineRoundTrip | editor.py:248-253 | A cue's `start --> end` line holds no line break, and reading it back gives the two clamped times' fields. |
| Editor.CueLines | editor.py:253 | A cue (`Cue`) followed by more text splits into its number, its time line, its stripped text and an empty line, followed by the lines of the rest. |
| Editor.CuesRoundTrip | editor.py:243-256 | Reading back the concatenated cues of one-line segments gives, for each segment in order, its number, its two re-based times and its stripped text. |
| Editor.SrtRoundTrip | editor.py:243-256 | The whole subtitle file (`SrtContent`) reads back as cues numbered 1..n. Each has its segment's re-based, clamped times truncated to the millisecond and its stripped text. |
| Editor.ResizedFileName | editor.py:367 | A resized file's name is `clip_`, then the format name with every colon read as `x`, then `.mp4`. It contains no colon. |
| Editor.ResizedNamesCollide | editor.py:367 | Two format names give the same file exactly when they agree once colons are read as `x`. |
| Editor.ColonAndXCollide | editor.py:367 | The formats `9:16` and `9x16` both write `clip_9x16.mp4`. |
| Editor.EmptyFormatEntry | editor.py:362-370 | A format entry that sets nothing becomes one resize to 1080x1080 named `custom`, written to `clip_custom.mp4`. |
| Editor.ResizedPaths | editor.py:371 | The dictionary's keys are exactly the format names that occur. Each key maps to the output of the last job with that name, because a later duplicate overwrites an earlier one. |
| Editor.ResizedPathsStep | editor.py:371 | One more assignment keeps the dictionary's keys and last-writer values correct. |
| Editor.ResizedPathsOfConfig | editor.py:362-371 | For a whole configuration, the keys are the format names that occur, with `custom` for unnamed entries, and each maps to the file named after it. |
| Editor.FinalClip | editor.py:374-377 | The final clip is `clip_with_subs.mp4` exactly when subtitles are to be burned in and a subtitle file exists. Otherwise it is `clip.mp4`. |
| Editor.ProcessHighlight | editor.py:338-377 | The outputs of one highlight: the base clip; a subtitle file exactly when some segment lies inside the clip, with the selected segments' cues re-based to the clip start; every format name mapped to its resized file; and the final clip choice. |
| Editor.EscapeColons | editor.py:286 | No colon is left unescaped: every colon is preceded by a backslash. When the input has no backslash, every backslash in the output escapes a colon. |
| Editor.UnescapeEscape | editor.py:286 | Escaping loses nothing: unescaping gives the text back. |
| Editor.EscapeFilterPath | editor.py:286 | In the escaped filter path, every backslash is followed by a colon and every colon is preceded by a backslash. |
| Editor.FilterPathRoundTrip | editor.py:286 | Unescaping the filter path gives the path with every backslash turned into `/`, so it contains no backslash. |
| MediaFiles.LastIndex | utils.py:126 | `rfind`: the position of the last occurrence of the character, or none when it does not occur. |
| MediaFiles.Name | utils.py:126 | A path's name is the part of the path after its last slash: it ends the path, holds no slash, and is either the whole path or preceded by a slash. |
| MediaFiles.Suffix | utils.py:126 | The suffix is empty exactly when the name's last dot is missing, is its first character or is its last character; otherwise it is the name from that dot on. It never holds a slash. |
| MediaFiles.SuffixOf | utils.py:126 | The file `stem.ext` in a directory, with a non-empty stem and an extension of a dot and at least one more character, has name `stem.ext` and suffix `.ext`. |
| MediaFiles.DotFileHasNoSuffix | utils.py:124-131 | A dot file such as `.mp4` has no suffix and so is neither an audio, a video nor a media file. |
| MediaFiles.ClassifyByExtension | utils.py:124-131 | `IsAudioFile`, `IsVideoFile` and `IsMediaFile` of `stem.ext` hold exactly when the lower-cased extension is in the audio, the video or the combined list. |
| MediaFiles.KelvinSignExtension | utils.py:130-131 | A file whose extension is `.m`, KELVIN SIGN, `v` is a video file, because Python lower-cases that sign to `k`. |
| MediaFiles.Classification | utils.py:18-20 | No file is both an audio and a video file. A file has a supported media suffix exactly when it is an audio or a video file. |
| MediaFiles.SuffixLower | utils.py:126 | Taking the suffix and lower-casing commute. |
| MediaFiles.LowerIdempotent | utils.py:126 | Lower-casing twice is lower-casing once. |
| MediaFiles.ClassificationIgnoresCase | utils.py:124-131 | Lower-casing the whole path changes none of the three classifications. |
| MediaFiles.ValidateFile | utils.py:232-245 | A file is valid exactly when it exists, has a supported suffix, and its duration could be probed and is at least the minimum. |
| MediaFiles.ValidFileFacts | utils.py:232-245 | A valid file is an audio or a video file, and it stays valid for any smaller minimum. |
| MediaFiles.HighlightFolderRoundTrip | utils.py:190 | Every non-negative highlight number can be read back from its folder name (`HighlightFolderName`), so different highlights get different folders. Below 100 every name has 12 characters, such as `highlight_03`. |
| MediaFiles.CaptionRoundTrip | utils.py:216 | A caption file (`CaptionContent`) whose hook is one line reads back as exactly its hook and its summary. |

## Left out

- The ffmpeg and ffprobe subprocesses: `extract_clip`, `resize_video`, the `burn_subtitles` command, the audio visualisation and `get_file_duration`. Clip cutting, resizing and burning are outside the model. A file's existence and its probed duration are inputs to `MediaFiles.ValidateFile`, and a failed probe is `None`.
- transcribe.py. Its speech-recognition providers are network or machine-learning libraries. Transcript segments are inputs.
- `HighlightExtractor.__init__`, `_call_llm` and its retries. These are network clients; the model starts from the reply text.
- `json.loads` is a library parser. It is a parameter of `Highlights.ParseResponse`, and a rejected text is its `None`. Nothing ties that parameter to JSON, so the model also admits a parser that reads a text starting with `{` as something other than an object; `Highlights.Candidates` then follows the code's `in` test.
- The body of the `_build_prompt` f-string and its `:.2f` formatting. Only the truncation of its inputs is modelled.
- run.py. It is orchestration: argument parsing, process-pool concurrency, logging and per-file error handling.
- Other utils.py plumbing:
  - `setup_logging`;
  - `load_config`;
  - `get_media_files`;
  - `save_highlights_json`;
  - the `mkdir` and file writes. Only the folder name and the caption text are modelled.
- IEEE-754 floating point. Times are exact reals, so rounding drift such as `int((0.3 % 1) * 1000) == 299` does not occur in the model.
- Highlights.ReadHighlight: `float()` of a JSON string is an error (`NotANumber`) even when the string holds a number. Python's string-to-float parser is not modelled.
- Text.Lower: maps ASCII capitals and the KELVIN SIGN only. The rest of Python's Unicode case mapping is not modelled. Apart from the Kelvin sign, no non-ASCII character lower-cases to ASCII letters, so a suffix with any other non-ASCII character is outside the supported lists either way, and classification is exact. The lower-cased text itself can differ from Python's for such characters.
- MediaFiles.Suffix: follows the `pathlib` rule of Python 3.13 and earlier, where a name ending in a dot has no suffix. Paths are POSIX strings in the normalised form `pathlib` keeps, with no trailing slash.
- Editor.SrtRoundTrip: the round trip is proved for segments whose stripped text is one line. A multi-line text makes the file ambiguous to read back.
- MediaFiles.HighlightFolderRoundTrip: stated for non-negative numbers only. The code numbers highlights from 1.
- MediaFiles.CaptionRoundTrip: stated for a one-line hook. A hook containing a line break followed by the summary header is ambiguous.
- Segments given as `None` (editor.py:343) are modelled as the empty list. The two behave alike there.
- The `width` and `height` of a format are only passed on to ffmpeg. The model records them in `Editor.ResizeJob` and proves nothing further about them.
- The order of the `resized` dictionary's keys (Python insertion order) is not modelled. The dictionary is a Dafny `map`.
- Behaviour the code does not have: nearest-boundary snapping, clamping times at zero, removing overlapping highlights, and idempotent validation. The model states the code's actual behaviour instead; see `Highlights.SnapTakesLastNotNearest` and `Highlights.AdjustedDurationCanExceedMax`.
