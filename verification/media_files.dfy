/** The pure helpers of utils.py: classifying a media file by its suffix,
    the `validate_file` decision, the name of a highlight's folder and the
    text of its caption file. Paths are POSIX path strings in the
    normalised form `pathlib` keeps them in. */
module MediaFiles {
  import opened Outcomes
  import opened Text

  const AudioFormats: set<string> := {".mp3", ".wav", ".m4a", ".aac", ".flac", ".ogg", ".wma"}
  const VideoFormats: set<string> := {".mp4", ".mkv", ".mov", ".avi", ".flv", ".webm", ".m4v"}
  const MediaFormats: set<string> := AudioFormats + VideoFormats
  const FolderPrefix: string := "highlight_"
  const CaptionHeader: string := "Caption (Hook):\n"
  const SummaryHeader: string := "\n\nSummary:\n"

  // Suffix classification

  /** `s.rfind(c)`: the position of the last `c` in `s`, if any. */
  function LastIndex(s: string, c: char): (r: Option<nat>)
    ensures r.Some? ==> r.value < |s| && s[r.value] == c && forall k :: r.value < k < |s| ==> s[k] != c
    ensures r.None? ==> c !in s
    decreases |s|
  {
    if |s| == 0 then None
    else if s[|s| - 1] == c then Some(|s| - 1)
    else LastIndex(s[..|s| - 1], c)
  }

  /** `PurePosixPath(path).name`: the text after the last slash, or the
      whole path when it has none. */
  function Name(path: string): (r: string)
    ensures |r| <= |path| && r == path[|path| - |r|..]
    ensures '/' !in r
    ensures |r| < |path| ==> path[|path| - |r| - 1] == '/'
  {
    match LastIndex(path, '/')
    case None => path
    case Some(i) => path[i + 1..]
  }

  /** Position `i` of `name` holds its last dot, and that dot is neither
      the first nor the last character: the dot a `pathlib` suffix starts
      at. */
  predicate SuffixDot(name: string, i: int) {
    && 0 < i < |name| - 1
    && name[i] == '.'
    && forall k :: i < k < |name| ==> name[k] != '.'
  }

  /** `r` is the suffix `pathlib` gives a file called `name`: empty exactly
      when the name has no suffix dot, and otherwise the name from that dot
      on. */
  ghost predicate IsSuffixOf(r: string, name: string) {
    && (r != "" <==> exists i :: SuffixDot(name, i))
    && forall i :: SuffixDot(name, i) ==> r == name[i..]
  }

  /** `PurePath.suffix`: the name from its suffix dot on, and empty when
      the name has none. A non-empty suffix is a dot and at least one more
      character, none of them a dot or a slash, and it ends the path. */
  function Suffix(path: string): (r: string)
    ensures IsSuffixOf(r, Name(path))
    ensures r != "" ==> |r| >= 2 && r[0] == '.' && '.' !in r[1..] && '/' !in r
    ensures |r| <= |path| && r == path[|path| - |r|..]
  {
    NameSuffix(path, Name(path))
  }

  function NameSuffix(path: string, name: string): (r: string)
    requires |name| <= |path| && name == path[|path| - |name|..] && '/' !in name
    ensures IsSuffixOf(r, name)
    ensures r != "" ==> |r| >= 2 && r[0] == '.' && '.' !in r[1..] && '/' !in r
    ensures |r| <= |path| && r == path[|path| - |r|..]
  {
    match LastIndex(name, '.')
    case None =>
      assert IsSuffixOf("", name);
      ""
    case Some(i) =>
      LastDot(name, i);
      if 0 < i < |name| - 1 then
        SuffixFacts(path, name, i);
        name[i..]
      else ""
  }

  /** The suffix dot, if any, is the last dot. */
  lemma LastDot(name: string, i: nat)
    requires LastIndex(name, '.') == Some(i)
    ensures IsSuffixOf(if 0 < i < |name| - 1 then name[i..] else "", name)
  {
    assert forall j :: SuffixDot(name, j) ==> j == i;
    if 0 < i < |name| - 1 {
      assert SuffixDot(name, i);
    }
  }

  lemma SuffixFacts(path: string, name: string, i: nat)
    requires |name| <= |path| && name == path[|path| - |name|..] && '/' !in name
    requires 0 < i < |name| - 1 && name[i] == '.'
    requires forall k :: i < k < |name| ==> name[k] != '.'
    ensures var r := name[i..];
      && |r| >= 2 && r[0] == '.' && '.' !in r[1..] && '/' !in r
      && |r| <= |path| && r == path[|path| - |r|..]
  {
    assert path[|path| - |name[i..]|..] == name[i..];
  }

  /** The path of a file `stem + ext` in a directory (`dir` empty or ending
      in a slash) has the suffix `ext`, for a non-empty stem and an `ext`
      that is a dot and at least one more character, none a dot or a
      slash. */
  lemma SuffixOf(dir: string, stem: string, ext: string)
    requires dir == "" || dir[|dir| - 1] == '/'
    requires |stem| > 0 && '/' !in stem
    requires |ext| >= 2 && ext[0] == '.' && '.' !in ext[1..] && '/' !in ext
    ensures Name(dir + stem + ext) == stem + ext
    ensures Suffix(dir + stem + ext) == ext
  {
    var file := stem + ext;
    ExtensionDot(stem, ext);
    assert dir + stem + ext == dir + file;
    NameOfFile(dir, file);
  }

  /** A file named by its extension alone, such as `.mp4`, has no suffix
      (its only dot is its first character), so it is no media file. */
  lemma DotFileHasNoSuffix(dir: string, ext: string)
    requires dir == "" || dir[|dir| - 1] == '/'
    requires |ext| >= 2 && ext[0] == '.' && '.' !in ext[1..] && '/' !in ext
    ensures Suffix(dir + ext) == ""
    ensures !IsAudioFile(dir + ext) && !IsVideoFile(dir + ext) && !IsMediaFile(dir + ext)
  {
    NameOfFile(dir, ext);
    OnlyLeadingDot(ext);
    EmptyIsNoFormat();
  }

  lemma OnlyLeadingDot(ext: string)
    requires |ext| >= 2 && '.' !in ext[1..]
    ensures forall i :: !SuffixDot(ext, i)
  {
    forall i | 0 < i < |ext|
      ensures ext[i] != '.'
    {
      assert ext[i] == ext[1..][i - 1];
    }
  }

  lemma EmptyIsNoFormat()
    ensures Lower("") == ""
    ensures "" !in AudioFormats && "" !in VideoFormats && "" !in MediaFormats
  {
  }

  /** In `stem + ext` the suffix dot is the dot that starts `ext`. */
  lemma ExtensionDot(stem: string, ext: string)
    requires |stem| > 0 && '/' !in stem
    requires |ext| >= 2 && ext[0] == '.' && '.' !in ext[1..] && '/' !in ext
    ensures '/' !in stem + ext
    ensures SuffixDot(stem + ext, |stem|) && (stem + ext)[|stem|..] == ext
  {
    var file := stem + ext;
    assert forall k :: 0 <= k < |file| ==> file[k] == if k < |stem| then stem[k] else ext[k - |stem|];
    forall k | |stem| < k < |file|
      ensures file[k] != '.'
    {
      assert file[k] == ext[1..][k - |stem| - 1];
    }
  }

  /** The name of `dir + file` is `file` when `file` holds no slash. */
  lemma NameOfFile(dir: string, file: string)
    requires dir == "" || dir[|dir| - 1] == '/'
    requires '/' !in file
    ensures Name(dir + file) == file
  {
    var path := dir + file;
    assert path[|dir|..] == file;
    match LastIndex(path, '/')
    case None =>
      if dir != "" {
        assert path[|dir| - 1] == '/';
      }
    case Some(i) =>
      assert i == |dir| - 1;
  }

  /** Lines 124-126: `is_audio_file`. */
  predicate IsAudioFile(path: string) {
    Lower(Suffix(path)) in AudioFormats
  }

  /** Lines 129-131: `is_video_file`. */
  predicate IsVideoFile(path: string) {
    Lower(Suffix(path)) in VideoFormats
  }

  /** The check of lines 235-236, against `ALL_MEDIA_FORMATS` (line 20). */
  predicate IsMediaFile(path: string) {
    Lower(Suffix(path)) in MediaFormats
  }

  /** A file `stem + ext` is classified by its extension alone,
      lower-cased: `talk.MKV` is a video file wherever it lies. */
  lemma ClassifyByExtension(dir: string, stem: string, ext: string)
    requires dir == "" || dir[|dir| - 1] == '/'
    requires |stem| > 0 && '/' !in stem
    requires |ext| >= 2 && ext[0] == '.' && '.' !in ext[1..] && '/' !in ext
    ensures IsAudioFile(dir + stem + ext) <==> Lower(ext) in AudioFormats
    ensures IsVideoFile(dir + stem + ext) <==> Lower(ext) in VideoFormats
    ensures IsMediaFile(dir + stem + ext) <==> Lower(ext) in MediaFormats
  {
    SuffixOf(dir, stem, ext);
  }

  /** `str.lower()` turns the Kelvin sign into `k`, so an extension written
      `.m` + U+212A + `v` is the video extension `.mkv`. */
  lemma KelvinSignExtension(dir: string, stem: string)
    requires dir == "" || dir[|dir| - 1] == '/'
    requires |stem| > 0 && '/' !in stem
    ensures IsVideoFile(dir + stem + ['.', 'm', KelvinSign, 'v'])
  {
    var ext := ['.', 'm', KelvinSign, 'v'];
    assert '.' !in ext[1..] && '/' !in ext;
    ClassifyByExtension(dir, stem, ext);
    KelvinExtensionLower();
    MkvIsVideo();
  }

  lemma KelvinExtensionLower()
    ensures Lower(['.', 'm', KelvinSign, 'v']) == ".mkv"
  {
    var r := Lower(['.', 'm', KelvinSign, 'v']);
    assert LowerChar('.') == '.' && LowerChar('m') == 'm' && LowerChar(KelvinSign) == 'k' && LowerChar('v') == 'v';
    assert r[0] == '.' && r[1] == 'm' && r[2] == 'k' && r[3] == 'v';
  }

  lemma MkvIsVideo()
    ensures ".mkv" in VideoFormats
  {
  }

  /** No file is both audio and video, and the media files are exactly the
      audio files and the video files. */
  lemma Classification(path: string)
    ensures !(IsAudioFile(path) && IsVideoFile(path))
    ensures IsMediaFile(path) <==> IsAudioFile(path) || IsVideoFile(path)
  {
    FormatsDisjoint(Lower(Suffix(path)));
  }

  lemma FormatsDisjoint(x: string)
    ensures !(x in AudioFormats && x in VideoFormats)
  {
  }

  /** Lower-casing does not move slashes or dots. */
  lemma {:induction false} LastIndexLower(s: string, c: char)
    requires !('A' <= c <= 'Z') && !('a' <= c <= 'z') && c != KelvinSign
    ensures LastIndex(Lower(s), c) == LastIndex(s, c)
    decreases |s|
  {
    if |s| > 0 {
      assert Lower(s)[..|s| - 1] == Lower(s[..|s| - 1]);
      LastIndexLower(s[..|s| - 1], c);
    }
  }

  lemma LowerSlice(s: string, i: nat)
    requires i <= |s|
    ensures Lower(s)[i..] == Lower(s[i..])
  {
  }

  /** Taking the suffix and lower-casing commute. */
  lemma SuffixLower(path: string)
    ensures Suffix(Lower(path)) == Lower(Suffix(path))
  {
    NameLower(path);
    NameSuffixLower(path, Name(path));
  }

  lemma NameLower(path: string)
    ensures Name(Lower(path)) == Lower(Name(path))
  {
    LastIndexLower(path, '/');
    if i :| LastIndex(path, '/') == Some(i) {
      LowerSlice(path, i + 1);
    }
  }

  lemma NameSuffixLower(path: string, name: string)
    requires |name| <= |path| && name == path[|path| - |name|..] && '/' !in name
    ensures NameSuffix(Lower(path), Lower(name)) == Lower(NameSuffix(path, name))
  {
    LastIndexLower(name, '.');
    if j :| LastIndex(name, '.') == Some(j) {
      LowerSlice(name, j);
    }
  }

  lemma LowerIdempotent(s: string)
    ensures Lower(Lower(s)) == Lower(s)
  {
  }

  /** Classification ignores the letter case of the whole path: `CLIP.MP4`
      is a video file just as `clip.mp4` is. */
  lemma ClassificationIgnoresCase(path: string)
    ensures IsAudioFile(Lower(path)) == IsAudioFile(path)
    ensures IsVideoFile(Lower(path)) == IsVideoFile(path)
    ensures IsMediaFile(Lower(path)) == IsMediaFile(path)
  {
    SuffixLower(path);
    LowerIdempotent(Suffix(path));
  }

  // File validation

  /** Lines 232-245: `validate_file`, with the file system and the
      ffprobe duration probe as inputs; `None` stands for a probe that
      raised. The file is valid exactly when it exists, has a media
      suffix, and its duration was read and is not below the minimum. */
  function ValidateFile(present: bool, path: string, duration: Option<real>, minDuration: real): (r: bool)
    ensures r <==> present && IsMediaFile(path) && duration.Some? && duration.value >= minDuration
  {
    if !present then false
    else if !IsMediaFile(path) then false
    else
      match duration
      case None => false
      case Some(d) => !(d < minDuration)
  }

  /** A valid file is an audio or a video file, and it stays valid for any
      smaller minimum duration. */
  lemma ValidFileFacts(present: bool, path: string, duration: Option<real>, minDuration: real, lower: real)
    requires ValidateFile(present, path, duration, minDuration)
    requires lower <= minDuration
    ensures IsAudioFile(path) || IsVideoFile(path)
    ensures ValidateFile(present, path, duration, lower)
  {
    Classification(path);
  }

  // Output names

  /** Line 190: the folder of highlight `n`, numbered from 1, as
      `f"highlight_{n:02d}"`. */
  function HighlightFolderName(n: int): string {
    FolderPrefix + FormatInt(n, 2)
  }

  /** Reads a highlight number back out of a folder name. */
  function ParseHighlightFolder(s: string): Option<nat> {
    if StartsWith(s, FolderPrefix) then ParseNat(s[|FolderPrefix|..]) else None
  }

  /** Every non-negative number is recovered from its folder name, so
      different highlights get different folders; below 100 the names all
      have the same length, which keeps them in numeric order when sorted
      as text. */
  lemma HighlightFolderRoundTrip(n: nat)
    ensures ParseHighlightFolder(HighlightFolderName(n)) == Some(n)
    ensures n < 100 ==> |HighlightFolderName(n)| == 12
  {
    FormatIntRoundTrip(n, 2);
    var s := HighlightFolderName(n);
    assert s[..|FolderPrefix|] == FolderPrefix;
    assert s[|FolderPrefix|..] == FormatInt(n, 2);
  }

  /** Line 216: the text of the caption file. */
  function CaptionContent(hook: string, summary: string): string {
    CaptionHeader + hook + SummaryHeader + summary
  }

  /** Reads the hook and the summary back out of a caption file's text. */
  function ParseCaption(content: string): Option<(string, string)> {
    if !StartsWith(content, CaptionHeader) then None
    else
      var rest := content[|CaptionHeader|..];
      if '\n' !in rest then None
      else
        var i := IndexOf(rest, '\n');
        var after := rest[i..];
        if StartsWith(after, SummaryHeader) then Some((rest[..i], after[|SummaryHeader|..])) else None
  }

  /** A caption whose hook is one line gives back its hook and its summary,
      whatever the summary holds. */
  lemma CaptionRoundTrip(hook: string, summary: string)
    requires '\n' !in hook
    ensures ParseCaption(CaptionContent(hook, summary)) == Some((hook, summary))
  {
    var content := CaptionContent(hook, summary);
    var tail := SummaryHeader + summary;
    var rest := hook + tail;
    assert StartsWith(content, CaptionHeader) && content[|CaptionHeader|..] == rest by {
      assert content == CaptionHeader + rest;
    }
    assert '\n' in rest && IndexOf(rest, '\n') == |hook| by {
      assert rest == hook + ['\n'] + tail[1..];
      IndexOfAfter(hook, '\n', tail[1..]);
    }
    assert rest[..|hook|] == hook && rest[|hook|..] == tail;
    assert StartsWith(tail, SummaryHeader) && tail[|SummaryHeader|..] == summary;
  }
}
