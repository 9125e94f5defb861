/** The Python `str` operations the pipeline relies on: whitespace
    stripping, ASCII lower-casing, character replacement, splitting and
    joining on a separator, and decimal formatting with zero padding
    (`format(n, "02d")`), together with the parsers that undo them. */
module Text {
  import opened Outcomes

  /** The characters for which Python's `str.isspace()` holds; these are the
      characters `str.strip()` removes when called without arguments. */
  predicate IsSpace(c: char) {
    || c == ' '
    || '\t' <= c <= '\r'
    || '\U{1C}' <= c <= '\U{1F}'
    || c == '\U{85}'
    || c == '\U{A0}'
    || c == '\U{1680}'
    || '\U{2000}' <= c <= '\U{200A}'
    || c == '\U{2028}'
    || c == '\U{2029}'
    || c == '\U{202F}'
    || c == '\U{205F}'
    || c == '\U{3000}'
  }

  /** `str.lstrip()`: the longest suffix of `s` that does not start with
      whitespace; everything dropped is whitespace. */
  function LStrip(s: string): (r: string)
    ensures |r| <= |s| && r == s[|s| - |r|..]
    ensures |r| > 0 ==> !IsSpace(r[0])
    ensures forall k :: 0 <= k < |s| - |r| ==> IsSpace(s[k])
  {
    if |s| > 0 && IsSpace(s[0]) then LStrip(s[1..]) else s
  }

  /** `str.rstrip()`: the longest prefix of `s` that does not end with
      whitespace; everything dropped is whitespace. */
  function RStrip(s: string): (r: string)
    ensures |r| <= |s| && r == s[..|r|]
    ensures |r| > 0 ==> !IsSpace(r[|r| - 1])
    ensures forall k :: |r| <= k < |s| ==> IsSpace(s[k])
  {
    if |s| > 0 && IsSpace(s[|s| - 1]) then RStrip(s[..|s| - 1]) else s
  }

  /** `str.strip()`: a contiguous slice of `s` that neither starts nor ends
      with whitespace, with only whitespace cut away on either side. */
  function Strip(s: string): (r: string)
    ensures |r| <= |s|
    ensures |r| > 0 ==> !IsSpace(r[0]) && !IsSpace(r[|r| - 1])
    ensures StripStart(s) + |r| <= |s| && r == s[StripStart(s)..StripStart(s) + |r|]
    ensures forall k :: 0 <= k < StripStart(s) ==> IsSpace(s[k])
    ensures forall k :: StripStart(s) + |r| <= k < |s| ==> IsSpace(s[k])
  {
    var l := LStrip(s);
    var r := RStrip(l);
    PrefixOfSuffix(s, |s| - |l|, l, r);
    r
  }

  /** A text that neither starts nor ends with whitespace is its own
      stripped form. */
  lemma StripKeeps(s: string)
    requires |s| > 0 && !IsSpace(s[0]) && !IsSpace(s[|s| - 1])
    ensures Strip(s) == s
  {
  }

  /** Where the text kept by `Strip` begins. */
  function StripStart(s: string): nat {
    |s| - |LStrip(s)|
  }

  /** A prefix `r` of the suffix `l` of `s` starting at `i`, with only
      whitespace in `l` after it. */
  lemma PrefixOfSuffix(s: string, i: nat, l: string, r: string)
    requires i <= |s| && l == s[i..]
    requires |r| <= |l| && r == l[..|r|]
    requires forall k :: |r| <= k < |l| ==> IsSpace(l[k])
    ensures i + |r| <= |s| && r == s[i..i + |r|]
    ensures forall k :: i + |r| <= k < |s| ==> IsSpace(s[k])
  {
    forall k | i + |r| <= k < |s|
      ensures IsSpace(s[k])
    {
      assert s[k] == l[k - i];
    }
  }

  predicate StartsWith(s: string, prefix: string) {
    |prefix| <= |s| && s[..|prefix|] == prefix
  }

  /** U+212A KELVIN SIGN, the one character outside ASCII whose lower case
      is an ASCII letter. */
  const KelvinSign: char := '\U{212A}'

  predicate IsUpperAscii(c: char) {
    'A' <= c <= 'Z'
  }

  /** Python's `str.lower()` on the characters whose lower case is an ASCII
      letter: the ASCII capitals, and the Kelvin sign, which becomes `k`.
      Every other character is kept as it is. */
  function LowerChar(c: char): char {
    if IsUpperAscii(c) then (c as int + 32) as char
    else if c == KelvinSign then 'k'
    else c
  }

  /** `str.lower()`, character by character: no ASCII capital and no Kelvin
      sign is left, a capital becomes the letter 32 code points above it,
      the Kelvin sign becomes `k`, and everything else is unchanged. */
  function Lower(s: string): (r: string)
    ensures |r| == |s|
    ensures forall i :: 0 <= i < |s| ==> r[i] == LowerChar(s[i])
    ensures forall i :: 0 <= i < |r| ==> !IsUpperAscii(r[i]) && r[i] != KelvinSign
    ensures forall i :: 0 <= i < |s| && IsUpperAscii(s[i]) ==> r[i] as int == s[i] as int + 32
    ensures forall i :: 0 <= i < |s| && s[i] == KelvinSign ==> r[i] == 'k'
    ensures forall i :: 0 <= i < |s| && !IsUpperAscii(s[i]) && s[i] != KelvinSign ==> r[i] == s[i]
  {
    seq(|s|, i requires 0 <= i < |s| => LowerChar(s[i]))
  }

  /** `s.replace(from, to)` for single characters: the length is kept, no
      `from` is left (unless it is `to` itself), a text without `from` is
      unchanged, and every other position keeps its character. */
  function ReplaceChar(s: string, from: char, to: char): (r: string)
    ensures |r| == |s|
    ensures forall i :: 0 <= i < |s| ==> r[i] == if s[i] == from then to else s[i]
    ensures from != to ==> from !in r
    ensures from !in s ==> r == s
  {
    seq(|s|, i requires 0 <= i < |s| => if s[i] == from then to else s[i])
  }

  /** A replacement is undone by the reverse replacement, provided the
      replacing character did not occur in the text beforehand. */
  lemma ReplaceCharBack(s: string, from: char, to: char)
    requires to !in s
    ensures ReplaceChar(ReplaceChar(s, from, to), to, from) == s
  {
    var r := ReplaceChar(s, from, to);
    assert forall i :: 0 <= i < |s| ==> (r[i] == to <==> s[i] == from);
  }

  /** Python's `needle in haystack` on strings: a substring test. */
  predicate IsSubstring(needle: string, haystack: string) {
    exists i | 0 <= i <= |haystack| - |needle| :: OccursAt(needle, haystack, i)
  }

  predicate OccursAt(needle: string, haystack: string, i: int) {
    0 <= i <= |haystack| - |needle| && haystack[i..i + |needle|] == needle
  }

  /** The position of the first occurrence of `c` (`str.index`). */
  function IndexOf(s: string, c: char): (i: nat)
    requires c in s
    ensures i < |s| && s[i] == c && c !in s[..i]
  {
    if s[0] == c then 0 else 1 + IndexOf(s[1..], c)
  }

  lemma IndexOfAfter(a: string, c: char, b: string)
    requires c !in a
    ensures c in a + [c] + b && IndexOf(a + [c] + b, c) == |a|
  {
    var s := a + [c] + b;
    assert s[|a|] == c;
    assert forall k :: 0 <= k < |a| ==> s[k] == a[k];
  }

  /** `s.split(sep)` for a one-character separator. */
  function Split(s: string, sep: char): (parts: seq<string>)
    ensures |parts| >= 1
    ensures forall k :: 0 <= k < |parts| ==> sep !in parts[k]
    decreases |s|
  {
    if sep in s then
      var i := IndexOf(s, sep);
      [s[..i]] + Split(s[i + 1..], sep)
    else
      [s]
  }

  /** `[sep].join(parts)`. */
  function Join(parts: seq<string>, sep: char): string {
    if |parts| == 0 then ""
    else if |parts| == 1 then parts[0]
    else parts[0] + [sep] + Join(parts[1..], sep)
  }

  /** Joining the pieces of a split gives back the original string. */
  lemma {:induction false} JoinSplit(s: string, sep: char)
    ensures Join(Split(s, sep), sep) == s
    decreases |s|
  {
    if sep in s {
      var i := IndexOf(s, sep);
      var a, b := s[..i], s[i + 1..];
      assert s == a + [sep] + b;
      SplitCons(a, sep, b);
      JoinSplit(b, sep);
      JoinCons(a, Split(b, sep), sep);
    }
  }

  /** Joining a first piece onto at least one more. */
  lemma JoinCons(a: string, rest: seq<string>, sep: char)
    requires |rest| >= 1
    ensures Join([a] + rest, sep) == a + [sep] + Join(rest, sep)
  {
    assert ([a] + rest)[1..] == rest;
  }

  /** Splitting a join of separator-free pieces gives back the pieces. */
  lemma {:induction false} SplitJoin(parts: seq<string>, sep: char)
    requires |parts| >= 1
    requires forall k :: 0 <= k < |parts| ==> sep !in parts[k]
    ensures Split(Join(parts, sep), sep) == parts
  {
    if |parts| > 1 {
      var tail := Join(parts[1..], sep);
      var s := parts[0] + [sep] + tail;
      assert Join(parts, sep) == s;
      IndexOfAfter(parts[0], sep, tail);
      assert s[|parts[0]| + 1..] == tail;
      assert s[..|parts[0]|] == parts[0];
      assert Split(s, sep) == [parts[0]] + Split(tail, sep);
      SplitJoin(parts[1..], sep);
      assert parts == [parts[0]] + parts[1..];
    }
  }

  /** Splitting at a first separator: the text before it is the first
      piece and the rest is split on. */
  lemma SplitCons(a: string, sep: char, b: string)
    requires sep !in a
    ensures Split(a + [sep] + b, sep) == [a] + Split(b, sep)
  {
    var s := a + [sep] + b;
    IndexOfAfter(a, sep, b);
    assert s[..|a|] == a;
    assert s[|a| + 1..] == b;
  }

  /** Splitting at a last separator: the text after it is the last piece. */
  lemma {:induction false} SplitSnoc(a: string, sep: char, b: string)
    requires sep !in b
    ensures Split(a + [sep] + b, sep) == Split(a, sep) + [b]
    decreases |a|
  {
    if sep in a {
      var i := IndexOf(a, sep);
      var a1, a2 := a[..i], a[i + 1..];
      assert a == a1 + [sep] + a2;
      assert a + [sep] + b == a1 + [sep] + (a2 + [sep] + b);
      SplitCons(a1, sep, a2 + [sep] + b);
      SplitSnoc(a2, sep, b);
      SplitCons(a1, sep, a2);
    } else {
      SplitCons(a, sep, b);
      assert Split(b, sep) == [b];
      assert Split(a, sep) == [a];
    }
  }

  /** Splitting a text between a separator-free first and last piece. */
  lemma SplitWrapped(first: string, body: string, last: string, sep: char)
    requires sep !in first && sep !in last
    ensures Split(first + [sep] + body + [sep] + last, sep) == [first] + Split(body, sep) + [last]
  {
    assert first + [sep] + body + [sep] + last == first + [sep] + (body + [sep] + last);
    SplitCons(first, sep, body + [sep] + last);
    SplitSnoc(body, sep, last);
  }

  // Decimal numbers

  predicate IsDigit(c: char) {
    '0' <= c <= '9'
  }

  predicate AllDigits(s: string) {
    forall k :: 0 <= k < |s| ==> IsDigit(s[k])
  }

  function DigitChar(d: nat): (c: char)
    requires d < 10
    ensures IsDigit(c)
  {
    ('0' as int + d) as char
  }

  function DigitValue(c: char): (d: nat)
    requires IsDigit(c)
    ensures d < 10
  {
    c as int - '0' as int
  }

  /** `str(n)` for a natural number: its decimal digits, most significant
      first, without leading zeros. */
  function Digits(n: nat): (r: string)
    ensures 1 <= |r| && AllDigits(r)
    ensures n < 10 ==> |r| == 1
    ensures n < 100 ==> |r| <= 2
    ensures n < 1000 ==> |r| <= 3
    ensures n >= 10 ==> r[0] != '0'
  {
    if n < 10 then [DigitChar(n)] else Digits(n / 10) + [DigitChar(n % 10)]
  }

  /** The number a string of digits denotes (leading zeros allowed). */
  function DecimalValue(s: string): nat
    requires AllDigits(s)
  {
    if |s| == 0 then 0 else DecimalValue(s[..|s| - 1]) * 10 + DigitValue(s[|s| - 1])
  }

  /** Reads a non-empty run of decimal digits, as `int(s)` would for such text. */
  function ParseNat(s: string): Option<nat> {
    if |s| > 0 && AllDigits(s) then Some(DecimalValue(s)) else None
  }

  function Zeros(k: nat): (r: string)
    ensures |r| == k && forall i :: 0 <= i < k ==> r[i] == '0'
  {
    seq(k, _ => '0')
  }

  /** Left-pads `s` with zeros up to `width` characters. */
  function ZeroPad(s: string, width: nat): (r: string)
    ensures |r| == if |s| < width then width else |s|
  {
    if |s| < width then Zeros(width - |s|) + s else s
  }

  /** Python's `format(n, "0<width>d")`: a minus sign for negative numbers,
      then the digits padded with zeros so that sign and digits together
      fill at least `width` characters. */
  function FormatInt(n: int, width: nat): string {
    if n < 0 then "-" + ZeroPad(Digits(-n), if width > 0 then width - 1 else 0)
    else ZeroPad(Digits(n), width)
  }

  lemma {:induction false} DigitsValue(n: nat)
    ensures DecimalValue(Digits(n)) == n
  {
    if n >= 10 {
      DigitsValue(n / 10);
      var d := Digits(n);
      assert d[..|d| - 1] == Digits(n / 10);
    }
  }

  lemma {:induction false} ZerosValue(k: nat)
    ensures DecimalValue(Zeros(k)) == 0
  {
    if k > 0 {
      assert Zeros(k)[..k - 1] == Zeros(k - 1);
      ZerosValue(k - 1);
    }
  }

  /** Leading zeros do not change the value of a digit string. */
  lemma {:induction false} LeadingZerosValue(k: nat, s: string)
    requires AllDigits(s)
    ensures AllDigits(Zeros(k) + s)
    ensures DecimalValue(Zeros(k) + s) == DecimalValue(s)
    decreases |s|
  {
    var z := Zeros(k) + s;
    assert AllDigits(z) by {
      forall i | 0 <= i < |z| ensures IsDigit(z[i]) {
        if i >= k { assert z[i] == s[i - k]; }
      }
    }
    if |s| == 0 {
      assert z == Zeros(k);
      ZerosValue(k);
    } else {
      assert z[..|z| - 1] == Zeros(k) + s[..|s| - 1];
      LeadingZerosValue(k, s[..|s| - 1]);
    }
  }

  /** Formatting a natural number and reading it back yields the number;
      the text is exactly `max(width, digit count)` characters long. */
  lemma FormatIntRoundTrip(n: nat, width: nat)
    ensures |FormatInt(n, width)| == if |Digits(n)| < width then width else |Digits(n)|
    ensures AllDigits(FormatInt(n, width))
    ensures ParseNat(FormatInt(n, width)) == Some(n)
  {
    DigitsValue(n);
    if |Digits(n)| < width {
      LeadingZerosValue(width - |Digits(n)|, Digits(n));
    }
  }
}
