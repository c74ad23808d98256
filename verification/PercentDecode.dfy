/**
 The file names of staged CASDA results: percent-decoding of the last path segment of a URL, and
 the two maps that bring a file and its checksum companion together. Texts are UTF-8 bytes.
 */
module PercentDecode {
  import opened Options

  type Byte = b: int | 0 <= b < 256

  type Bytes = seq<Byte>

  const PERCENT: Byte := 0x25
  const SLASH: Byte := 0x2F
  const QUESTION: Byte := 0x3F
  const HASH: Byte := 0x23

  // ---------------------------------------------------------------- UTF-8

  predicate Continues(b: Byte) {
    0x80 <= b <= 0xBF
  }

  /** The length of the well-formed sequence that a text starts with, or 0 (section 4 of RFC 3629). */
  function SequenceLength(s: Bytes): (n: nat)
    ensures n <= |s|
  {
    if s == [] then 0
    else if s[0] < 0x80 then 1
    else if |s| < 2 then 0
    else if 0xC2 <= s[0] <= 0xDF then if Continues(s[1]) then 2 else 0
    else if |s| < 3 then 0
    else if 0xE0 <= s[0] <= 0xEF then
      if (if s[0] == 0xE0 then 0xA0 <= s[1] <= 0xBF else if s[0] == 0xED then 0x80 <= s[1] <= 0x9F else Continues(s[1]))
         && Continues(s[2]) then 3 else 0
    else if |s| < 4 then 0
    else if 0xF0 <= s[0] <= 0xF4 then
      if (if s[0] == 0xF0 then 0x90 <= s[1] <= 0xBF else if s[0] == 0xF4 then 0x80 <= s[1] <= 0x8F else Continues(s[1]))
         && Continues(s[2]) && Continues(s[3]) then 4 else 0
    else 0
  }

  predicate IsUtf8(s: Bytes) {
    s != [] ==> SequenceLength(s) > 0 && IsUtf8(s[SequenceLength(s)..])
  }

  /** A Unicode scalar value: a code point that is no surrogate. */
  type Scalar = c: int | 0 <= c < 0xD800 || 0xE000 <= c < 0x110000

  /** The bits of a character, six to a byte behind the first one. */
  function Utf8Of(c: Scalar): Bytes {
    if c < 0x80 then [c]
    else if c < 0x800 then [0xC0 + c / 0x40, 0x80 + c % 0x40]
    else if c < 0x1_0000 then [0xE0 + c / 0x1000, 0x80 + c / 0x40 % 0x40, 0x80 + c % 0x40]
    else [0xF0 + c / 0x4_0000, 0x80 + c / 0x1000 % 0x40, 0x80 + c / 0x40 % 0x40, 0x80 + c % 0x40]
  }

  function Utf8Text(text: seq<Scalar>): Bytes {
    if text == [] then [] else Utf8Of(text[0]) + Utf8Text(text[1..])
  }

  lemma CharacterIsRead(c: Scalar, rest: Bytes)
    ensures SequenceLength(Utf8Of(c) + rest) == |Utf8Of(c)| > 0
  {
    var s := Utf8Of(c) + rest;
    assert s[0] == Utf8Of(c)[0];
    assert c >= 0x80 ==> s[1] == Utf8Of(c)[1];
    assert c >= 0x800 ==> s[2] == Utf8Of(c)[2];
    assert c >= 0x1_0000 ==> s[3] == Utf8Of(c)[3];
  }

  lemma CharacterOf(s: Bytes) returns (c: Scalar)
    requires SequenceLength(s) > 0
    ensures s[..SequenceLength(s)] == Utf8Of(c)
  {
    var n := SequenceLength(s);
    if n == 1 {
      c := s[0];
    } else if n == 2 {
      var h: int, i: int := s[0] as int - 0xC0, s[1] as int - 0x80;
      FourGroups(0, 0, h, i);
      c := 0x40 * h + i;
    } else if n == 3 {
      c := ThreeBytes(s[0], s[1], s[2]);
    } else {
      c := FourBytes(s[0], s[1], s[2], s[3]);
    }
  }

  lemma ThreeBytes(a: Byte, b: Byte, d: Byte) returns (c: Scalar)
    requires SequenceLength([a, b, d]) == 3
    ensures Utf8Of(c) == [a, b, d]
  {
    var h: int, i: int, j: int := a as int - 0xE0, b as int - 0x80, d as int - 0x80;
    FourGroups(0, h, i, j);
    c := 0x1000 * h + 0x40 * i + j;
    assert c / 0x1000 == h;
  }

  lemma FourBytes(a: Byte, b: Byte, d: Byte, e: Byte) returns (c: Scalar)
    requires SequenceLength([a, b, d, e]) == 4
    ensures Utf8Of(c) == [a, b, d, e]
  {
    var h: int, i: int, j: int, k: int := a as int - 0xF0, b as int - 0x80, d as int - 0x80, e as int - 0x80;
    FourGroups(h, i, j, k);
    c := 0x4_0000 * h + 0x1000 * i + 0x40 * j + k;
  }

  lemma FourGroups(h: int, i: int, j: int, k: int)
    requires 0 <= h && 0 <= i < 0x40 && 0 <= j < 0x40 && 0 <= k < 0x40
    ensures var c := 0x4_0000 * h + 0x1000 * i + 0x40 * j + k;
      c / 0x4_0000 == h && c / 0x1000 % 0x40 == i && c / 0x40 % 0x40 == j && c % 0x40 == k
  {
    var c := 0x4_0000 * h + 0x1000 * i + 0x40 * j + k;
    assert c / 0x40 == 0x1000 * h + 0x40 * i + j;
    assert c / 0x1000 == 0x40 * h + i;
  }

  /** A text is well-formed exactly if it encodes characters. */
  lemma Utf8Exactly(s: Bytes)
    ensures IsUtf8(s) <==> exists text :: Utf8Text(text) == s
  {
    if IsUtf8(s) { var text := TextOf(s); }
    if text :| Utf8Text(text) == s { TextIsUtf8(text); }
  }

  lemma {:induction false} TextOf(s: Bytes) returns (text: seq<Scalar>)
    requires IsUtf8(s)
    ensures Utf8Text(text) == s
  {
    if s == [] {
      text := [];
    } else {
      var c := CharacterOf(s);
      var rest := TextOf(s[SequenceLength(s)..]);
      FirstCharacter(s, SequenceLength(s), c, rest);
      text := [c] + rest;
    }
  }

  lemma FirstCharacter(s: Bytes, n: nat, c: Scalar, rest: seq<Scalar>)
    requires n <= |s| && s[..n] == Utf8Of(c) && s[n..] == Utf8Text(rest)
    ensures Utf8Text([c] + rest) == s
  {
    assert ([c] + rest)[1..] == rest;
    assert s[..n] + s[n..] == s;
  }

  lemma {:induction false} TextIsUtf8(text: seq<Scalar>)
    ensures IsUtf8(Utf8Text(text))
  {
    if text != [] {
      var c, rest := Utf8Of(text[0]), Utf8Text(text[1..]);
      TextIsUtf8(text[1..]);
      CharacterIsRead(text[0], rest);
      assert (c + rest)[|c|..] == rest;
    }
  }

  // ---------------------------------------------------------------- decoding

  function HexDigit(b: Byte): (d: Option<nat>)
    ensures d.Some? ==> d.value < 16
  {
    if '0' as int <= b <= '9' as int then Some(b - '0' as int)
    else if 'a' as int <= b <= 'f' as int then Some(b - 'a' as int + 10)
    else if 'A' as int <= b <= 'F' as int then Some(b - 'A' as int + 10)
    else None
  }

  /** Two hexadecimal digits follow. */
  predicate TwoDigits(s: Bytes, i: nat) {
    i + 2 < |s| && HexDigit(s[i + 1]).Some? && HexDigit(s[i + 2]).Some?
  }

  function Prepend(front: Bytes, rest: Option<Bytes>): Option<Bytes> {
    if rest.None? then None else Some(front + rest.value)
  }

  /** The decoded bytes, whether or not they are a text. */
  function Decoded(s: Bytes): Option<Bytes> {
    if s == [] then Some([])
    else if s[0] != PERCENT then Prepend([s[0]], Decoded(s[1..]))
    else if !TwoDigits(s, 0) then None
    else Prepend([16 * HexDigit(s[1]).value + HexDigit(s[2]).value], Decoded(s[3..]))
  }

  method PercentDecodePathSegment(value: Bytes) returns (text: Option<Bytes>)
    ensures text == if Decoded(value).Some? && IsUtf8(Decoded(value).value) then Decoded(value) else None
  {
    var decoded: Bytes := [];
    var index := 0;
    assert value[0..] == value;
    PrependNothing(Decoded(value));
    while index < |value|
      invariant index <= |value|
      invariant Decoded(value) == Prepend(decoded, Decoded(value[index..]))
    {
      ghost var rest := value[index..];
      assert rest[0] == value[index];
      if value[index] == PERCENT {
        if index + 1 >= |value| || index + 2 >= |value| {
          return None;
        }
        var high, low := HexDigit(value[index + 1]), HexDigit(value[index + 2]);
        assert rest[1] == value[index + 1] && rest[2] == value[index + 2];
        if high.None? || low.None? {
          return None;
        }
        assert rest[3..] == value[index + 3..];
        PrependTwice(decoded, [16 * high.value + low.value], Decoded(value[index + 3..]));
        decoded := decoded + [16 * high.value + low.value];
        index := index + 3;
      } else {
        assert rest[1..] == value[index + 1..];
        PrependTwice(decoded, [value[index]], Decoded(value[index + 1..]));
        decoded := decoded + [value[index]];
        index := index + 1;
      }
    }
    assert value[|value|..] == [];
    assert decoded + [] == decoded;
    return if IsUtf8(decoded) then Some(decoded) else None;
  }

  lemma PrependNothing(rest: Option<Bytes>)
    ensures Prepend([], rest) == rest
  {
    if rest.Some? { assert [] + rest.value == rest.value; }
  }

  lemma PrependTwice(a: Bytes, b: Bytes, rest: Option<Bytes>)
    ensures Prepend(a, Prepend(b, rest)) == Prepend(a + b, rest)
  {
    if rest.Some? { assert a + (b + rest.value) == a + b + rest.value; }
  }

  // ---------------------------------------------------------------- encoders

  /** What an encoder does with one byte: leave it, or escape it with digits of either case. */
  datatype Choice = Plain | Escape(upperHigh: bool, upperLow: bool)

  function Digit(d: nat, upper: bool): Byte
    requires d < 16
  {
    if d < 10 then '0' as int + d else if upper then 'A' as int + d - 10 else 'a' as int + d - 10
  }

  function EncodeByte(b: Byte, choice: Choice): Bytes {
    match choice
    case Plain => [b]
    case Escape(high, low) => [PERCENT, Digit(b / 16, high), Digit(b % 16, low)]
  }

  function Encode(raw: Bytes, choices: seq<Choice>): Bytes
    requires |raw| == |choices|
  {
    if raw == [] then [] else EncodeByte(raw[0], choices[0]) + Encode(raw[1..], choices[1..])
  }

  /** Encoders are free to choose, except that they escape percent signs. */
  predicate EscapesPercent(raw: Bytes, choices: seq<Choice>)
    requires |raw| == |choices|
  {
    forall i | 0 <= i < |raw| :: raw[i] == PERCENT ==> choices[i].Escape?
  }

  ghost predicate IsEncodingOf(s: Bytes, raw: Bytes) {
    exists choices: seq<Choice> :: |choices| == |raw| && EscapesPercent(raw, choices) && s == Encode(raw, choices)
  }

  lemma DigitIsRead(d: nat, upper: bool)
    requires d < 16
    ensures HexDigit(Digit(d, upper)) == Some(d)
  {
  }

  /** Decoding undoes every encoder. */
  lemma {:induction false} DecodingUndoesEncoding(raw: Bytes, choices: seq<Choice>)
    requires |raw| == |choices| && EscapesPercent(raw, choices)
    ensures Decoded(Encode(raw, choices)) == Some(raw)
  {
    if raw != [] {
      var rest := Encode(raw[1..], choices[1..]);
      DecodingUndoesEncoding(raw[1..], choices[1..]);
      var s := EncodeByte(raw[0], choices[0]) + rest;
      assert [raw[0]] + raw[1..] == raw;
      match choices[0]
      case Plain =>
        assert s[0] == raw[0] && s[1..] == rest;
      case Escape(high, low) =>
        DigitIsRead(raw[0] / 16, high);
        DigitIsRead(raw[0] % 16, low);
        assert s[0] == PERCENT && s[3..] == rest;
        assert HexDigit(s[1]) == Some(raw[0] / 16) && HexDigit(s[2]) == Some(raw[0] % 16);
        assert 16 * (raw[0] / 16) + raw[0] % 16 == raw[0];
    }
  }

  lemma DigitOfRead(b: Byte) returns (upper: bool)
    requires HexDigit(b).Some?
    ensures Digit(HexDigit(b).value, upper) == b
  {
    upper := 'A' as int <= b <= 'F' as int;
  }

  /** Whatever is decoded was encoded by some encoder. */
  lemma {:induction false} DecodedWasEncoded(s: Bytes) returns (choices: seq<Choice>)
    requires Decoded(s).Some?
    ensures var raw := Decoded(s).value;
            |choices| == |raw| && EscapesPercent(raw, choices) && s == Encode(raw, choices)
  {
    if s == [] {
      choices := [];
    } else if s[0] != PERCENT {
      var rest := DecodedWasEncoded(s[1..]);
      choices := [Plain] + rest;
      assert choices[1..] == rest && Decoded(s).value[1..] == Decoded(s[1..]).value;
    } else {
      var rest := DecodedWasEncoded(s[3..]);
      var high := DigitOfRead(s[1]);
      var low := DigitOfRead(s[2]);
      choices := [Escape(high, low)] + rest;
      var b := 16 * HexDigit(s[1]).value + HexDigit(s[2]).value;
      assert Decoded(s).value == [b] + Decoded(s[3..]).value;
      assert choices[1..] == rest && Decoded(s).value[1..] == Decoded(s[3..]).value;
      assert b / 16 == HexDigit(s[1]).value && b % 16 == HexDigit(s[2]).value;
      assert EncodeByte(b, choices[0]) == [s[0], s[1], s[2]];
      assert s == [s[0], s[1], s[2]] + s[3..];
    }
  }

  /** The decoder inverts exactly the encoders. */
  lemma DecodesExactlyEncodings(s: Bytes, raw: Bytes)
    ensures Decoded(s) == Some(raw) <==> IsEncodingOf(s, raw)
  {
    if Decoded(s) == Some(raw) {
      var choices := DecodedWasEncoded(s);
    }
    if IsEncodingOf(s, raw) {
      var choices: seq<Choice> :| |choices| == |raw| && EscapesPercent(raw, choices) && s == Encode(raw, choices);
      DecodingUndoesEncoding(raw, choices);
    }
  }

  /** Decoding fails exactly if some percent sign is not followed by two hexadecimal digits. */
  lemma {:induction false} FailsExactlyWhenMalformed(s: Bytes)
    ensures Decoded(s).None? <==> exists i | 0 <= i < |s| :: s[i] == PERCENT && !TwoDigits(s, i)
  {
    if s != [] {
      var n := if s[0] == PERCENT then 3 else 1;
      if s[0] == PERCENT && !TwoDigits(s, 0) {
      } else {
        var rest := s[n..];
        FailsExactlyWhenMalformed(rest);
        assert forall i | 0 <= i < |rest| :: rest[i] == s[i + n];
        forall i: nat | i < |rest| ensures TwoDigits(rest, i) <==> TwoDigits(s, i + n) {
        }
        if exists i | 0 <= i < |s| :: s[i] == PERCENT && !TwoDigits(s, i) {
          var i :| 0 <= i < |s| && s[i] == PERCENT && !TwoDigits(s, i);
          assert i >= n;
          assert rest[i - n] == PERCENT && !TwoDigits(rest, i - n);
        }
        if exists i | 0 <= i < |rest| :: rest[i] == PERCENT && !TwoDigits(rest, i) {
          var i :| 0 <= i < |rest| && rest[i] == PERCENT && !TwoDigits(rest, i);
          assert s[i + n] == PERCENT && !TwoDigits(s, i + n);
        }
      }
    }
  }

  // ---------------------------------------------------------------- file names

  function UntilQuery(url: Bytes): Bytes {
    if url == [] || url[0] == QUESTION || url[0] == HASH then [] else [url[0]] + UntilQuery(url[1..])
  }

  function AfterLastSlash(path: Bytes): Bytes {
    if path == [] || path[|path| - 1] == SLASH then [] else AfterLastSlash(path[..|path| - 1]) + [path[|path| - 1]]
  }

  /** The decoded last path segment of a URL, if it is a non-empty text. */
  function FileName(url: Bytes): Option<Bytes> {
    var decoded := Decoded(AfterLastSlash(UntilQuery(url)));
    if decoded.Some? && IsUtf8(decoded.value) && decoded.value != [] then decoded else None
  }

  method ExtractFileNameFromUrl(url: Bytes) returns (name: Option<Bytes>)
    ensures name == FileName(url)
  {
    name := PercentDecodePathSegment(AfterLastSlash(UntilQuery(url)));
    if name == Some([]) {
      name := None;
    }
  }

  predicate IsSuffixOfUrl(suffix: Bytes) {
    suffix == [] || suffix[0] == QUESTION || suffix[0] == HASH
  }

  lemma {:induction false} QueryIsIgnored(path: Bytes, suffix: Bytes)
    requires QUESTION !in path && HASH !in path && IsSuffixOfUrl(suffix)
    ensures UntilQuery(path + suffix) == path
  {
    if path == [] {
      assert path + suffix == suffix;
    } else {
      assert (path + suffix)[1..] == path[1..] + suffix;
      QueryIsIgnored(path[1..], suffix);
      assert [path[0]] + path[1..] == path;
    }
  }

  lemma {:induction false} DirectoryIsIgnored(directory: Bytes, segment: Bytes)
    requires SLASH !in segment
    ensures AfterLastSlash(directory + [SLASH] + segment) == segment
  {
    var path := directory + [SLASH] + segment;
    if segment == [] {
      assert path[|path| - 1] == SLASH;
    } else {
      var front := segment[..|segment| - 1];
      assert path[..|path| - 1] == directory + [SLASH] + front;
      DirectoryIsIgnored(directory, front);
      assert front + [segment[|segment| - 1]] == segment;
    }
  }

  lemma {:induction false} NoDirectory(segment: Bytes)
    requires SLASH !in segment
    ensures AfterLastSlash(segment) == segment
  {
    if segment != [] {
      NoDirectory(segment[..|segment| - 1]);
      assert segment[..|segment| - 1] + [segment[|segment| - 1]] == segment;
    }
  }

  lemma {:induction false} UrlSplits(url: Bytes) returns (suffix: Bytes)
    ensures url == UntilQuery(url) + suffix && IsSuffixOfUrl(suffix)
    ensures QUESTION !in UntilQuery(url) && HASH !in UntilQuery(url)
  {
    if url == [] || url[0] == QUESTION || url[0] == HASH {
      suffix := url;
    } else {
      suffix := UrlSplits(url[1..]);
      assert [url[0]] + (UntilQuery(url[1..]) + suffix) == url;
    }
  }

  predicate IsDirectory(directory: Bytes) {
    directory == [] || directory[|directory| - 1] == SLASH
  }

  lemma {:induction false} PathSplits(path: Bytes) returns (directory: Bytes)
    ensures path == directory + AfterLastSlash(path) && IsDirectory(directory) && SLASH !in AfterLastSlash(path)
  {
    if path == [] || path[|path| - 1] == SLASH {
      directory := path;
    } else {
      directory := PathSplits(path[..|path| - 1]);
      assert directory + (AfterLastSlash(path[..|path| - 1]) + [path[|path| - 1]]) == path;
    }
  }

  predicate SplitsInto(url: Bytes, directory: Bytes, segment: Bytes, suffix: Bytes) {
    && url == directory + segment + suffix
    && IsDirectory(directory) && SLASH !in segment && IsSuffixOfUrl(suffix)
    && QUESTION !in directory + segment && HASH !in directory + segment
  }

  /** What stands behind the last slash, and in front of a query or a fragment. */
  ghost predicate IsLastSegment(url: Bytes, segment: Bytes) {
    exists directory: Bytes, suffix: Bytes :: SplitsInto(url, directory, segment, suffix)
  }

  lemma LastSegmentIs(url: Bytes, segment: Bytes)
    ensures AfterLastSlash(UntilQuery(url)) == segment <==> IsLastSegment(url, segment)
  {
    if AfterLastSlash(UntilQuery(url)) == segment {
      var suffix := UrlSplits(url);
      var directory := PathSplits(UntilQuery(url));
      assert SplitsInto(url, directory, segment, suffix);
    }
    if directory: Bytes, suffix: Bytes :| SplitsInto(url, directory, segment, suffix) {
      QueryIsIgnored(directory + segment, suffix);
      if directory == [] {
        assert directory + segment == segment;
        NoDirectory(segment);
      } else {
        var front := directory[..|directory| - 1];
        assert front + [SLASH] == directory;
        DirectoryIsIgnored(front, segment);
      }
    }
  }

  /** For every URL: its file name is the non-empty text that its last segment encodes, if there is one. */
  lemma FileNameExactly(url: Bytes, name: Bytes)
    ensures FileName(url) == Some(name) <==>
      name != [] && IsUtf8(name) && exists segment :: IsLastSegment(url, segment) && IsEncodingOf(segment, name)
  {
    var last := AfterLastSlash(UntilQuery(url));
    LastSegmentIs(url, last);
    DecodesExactlyEncodings(last, name);
    if segment :| IsLastSegment(url, segment) && IsEncodingOf(segment, name) {
      LastSegmentIs(url, segment);
    }
  }

  /** Encoders for path segments also escape the characters that end one. */
  predicate EscapesDelimiters(raw: Bytes, choices: seq<Choice>)
    requires |raw| == |choices|
  {
    forall i | 0 <= i < |raw| :: raw[i] in {PERCENT, SLASH, QUESTION, HASH} ==> choices[i].Escape?
  }

  lemma {:induction false} EncodedSegment(raw: Bytes, choices: seq<Choice>)
    requires |raw| == |choices| && EscapesDelimiters(raw, choices)
    ensures var s := Encode(raw, choices); SLASH !in s && QUESTION !in s && HASH !in s
  {
    if raw != [] {
      EncodedSegment(raw[1..], choices[1..]);
      var head := EncodeByte(raw[0], choices[0]);
      assert SLASH !in head && QUESTION !in head && HASH !in head;
    }
  }

  /** A URL whose last path segment encodes a name, with any directory, query and fragment. */
  ghost predicate Locates(url: Bytes, name: Bytes) {
    exists directory: Bytes, choices: seq<Choice>, suffix: Bytes ::
      && QUESTION !in directory && HASH !in directory && IsSuffixOfUrl(suffix)
      && |choices| == |name| && EscapesDelimiters(name, choices)
      && url == directory + [SLASH] + Encode(name, choices) + suffix
  }

  /** The name of a file is recovered, however it is encoded and whatever follows it in the URL. */
  lemma FileNameIsRecovered(url: Bytes, name: Bytes)
    requires Locates(url, name) && name != [] && IsUtf8(name)
    ensures FileName(url) == Some(name)
  {
    var directory: Bytes, choices: seq<Choice>, suffix: Bytes :|
      && QUESTION !in directory && HASH !in directory && IsSuffixOfUrl(suffix)
      && |choices| == |name| && EscapesDelimiters(name, choices)
      && url == directory + [SLASH] + Encode(name, choices) + suffix;
    EncodedSegment(name, choices);
    DecodingUndoesEncoding(name, choices);
    QueryIsIgnored(directory + [SLASH] + Encode(name, choices), suffix);
    DirectoryIsIgnored(directory, Encode(name, choices));
  }

  // ---------------------------------------------------------------- files and their checksums

  datatype Result = Result(id: Bytes, url: Bytes)

  /** ".checksum" */
  const CHECKSUM: Bytes := [0x2E, 0x63, 0x68, 0x65, 0x63, 0x6B, 0x73, 0x75, 0x6D]

  predicate IsChecksum(r: Result) {
    exists i | 0 <= i <= |r.id| :: CHECKSUM <= r.id[i..]
  }

  predicate EndsInChecksum(name: Bytes) {
    |name| >= |CHECKSUM| && name[|name| - |CHECKSUM|..] == CHECKSUM
  }

  function WithoutChecksum(name: Bytes): Bytes {
    if EndsInChecksum(name) then name[..|name| - |CHECKSUM|] else name
  }

  /** The key under which a result is filed. */
  function KeyOf(r: Result): Option<Bytes> {
    var name := FileName(r.url);
    if name.Some? && IsChecksum(r) then Some(WithoutChecksum(name.value)) else name
  }

  /** The URLs of the results of one kind, by key; the last one of a key stays. */
  function FiledUnder(results: seq<Result>, checksums: bool): map<Bytes, Bytes> {
    if results == [] then map[]
    else
      var last := results[|results| - 1];
      var files := FiledUnder(results[..|results| - 1], checksums);
      if IsChecksum(last) == checksums && KeyOf(last).Some? then files[KeyOf(last).value := last.url] else files
  }

  method ParseEvalJobResults(results: seq<Result>) returns (urls: map<Bytes, Bytes>, checksums: map<Bytes, Bytes>)
    ensures urls == FiledUnder(results, false) && checksums == FiledUnder(results, true)
  {
    urls, checksums := map[], map[];
    for i := 0 to |results|
      invariant urls == FiledUnder(results[..i], false) && checksums == FiledUnder(results[..i], true)
    {
      assert results[..i + 1][..i] == results[..i];
      var r := results[i];
      var name := ExtractFileNameFromUrl(r.url);
      if IsChecksum(r) {
        if name.Some? {
          var base := WithoutChecksum(name.value);
          checksums := checksums[base := r.url];
        }
      } else if name.Some? {
        urls := urls[name.value := r.url];
      }
    }
    assert results[..|results|] == results;
  }

  predicate FilesUnder(r: Result, checksums: bool, key: Bytes) {
    IsChecksum(r) == checksums && KeyOf(r) == Some(key)
  }

  predicate IsLast(results: seq<Result>, checksums: bool, key: Bytes, i: nat) {
    && i < |results| && FilesUnder(results[i], checksums, key)
    && forall j | i < j < |results| :: !FilesUnder(results[j], checksums, key)
  }

  /** A key has the URL of the last result filed under it. */
  lemma {:induction false} LastResultStays(results: seq<Result>, checksums: bool, key: Bytes, i: nat)
    requires IsLast(results, checksums, key, i)
    ensures key in FiledUnder(results, checksums) && FiledUnder(results, checksums)[key] == results[i].url
  {
    var front := results[..|results| - 1];
    if i < |front| {
      assert !FilesUnder(results[|front|], checksums, key);
      assert IsLast(front, checksums, key, i);
      LastResultStays(front, checksums, key, i);
    }
  }

  /** Every key has a result filed under it. */
  lemma {:induction false} NothingElseIsFiled(results: seq<Result>, checksums: bool, key: Bytes) returns (i: nat)
    requires key in FiledUnder(results, checksums)
    ensures IsLast(results, checksums, key, i)
  {
    var n := |results| - 1;
    var front := results[..n];
    if FilesUnder(results[n], checksums, key) {
      i := n;
    } else {
      i := NothingElseIsFiled(front, checksums, key);
      assert forall j | 0 <= j < n :: results[j] == front[j];
    }
  }

  function AsBytes(text: string): Bytes
    requires forall i | 0 <= i < |text| :: text[i] < 128 as char
  {
    seq(|text|, i requires 0 <= i < |text| => text[i] as int)
  }

  ghost predicate HasChecksumId(r: Result) {
    exists a: Bytes, b: Bytes :: r.id == a + AsBytes(".checksum") + b
  }

  lemma ChecksumText()
    ensures CHECKSUM == AsBytes(".checksum")
  {
  }

  /** The results of checksums are those with ".checksum" somewhere in their id. */
  lemma ChecksumsAre(r: Result)
    ensures IsChecksum(r) <==> HasChecksumId(r)
  {
    ChecksumText();
    if i :| 0 <= i <= |r.id| && CHECKSUM <= r.id[i..] {
      assert r.id == r.id[..i] + CHECKSUM + r.id[i..][|CHECKSUM|..];
    }
    if a: Bytes, b: Bytes :| r.id == a + AsBytes(".checksum") + b {
      assert r.id[|a|..] == CHECKSUM + b;
    }
  }

  /** A name with ".checksum" at its end, or without, and what it is without. */
  predicate Strips(name: Bytes, base: Bytes) {
    name == base + AsBytes(".checksum") || (name == base && !EndsInChecksum(name))
  }

  lemma StripsExactly(name: Bytes, base: Bytes)
    ensures WithoutChecksum(name) == base <==> Strips(name, base)
    ensures EndsInChecksum(name) <==> exists front: Bytes :: name == front + AsBytes(".checksum")
  {
    ChecksumText();
    if EndsInChecksum(name) { assert name == name[..|name| - |CHECKSUM|] + CHECKSUM; }
    if front: Bytes :| name == front + AsBytes(".checksum") {
      assert name[..|name| - |CHECKSUM|] == front && name[|name| - |CHECKSUM|..] == CHECKSUM;
    }
    if name == base + AsBytes(".checksum") { assert name[..|name| - |CHECKSUM|] == base; }
  }

  /** Exactly which key a result is filed under: its file name, for checksums without that ending. */
  lemma KeyExactly(r: Result, key: Bytes)
    ensures KeyOf(r) == Some(key) <==>
      exists name :: FileName(r.url) == Some(name) && if HasChecksumId(r) then Strips(name, key) else name == key
  {
    ChecksumsAre(r);
    if FileName(r.url).Some? { StripsExactly(FileName(r.url).value, key); }
  }

  lemma KeyOfChecksum(r: Result, name: Bytes)
    requires IsChecksum(r) && FileName(r.url) == Some(name + CHECKSUM)
    ensures KeyOf(r) == Some(name)
  {
    assert (name + CHECKSUM)[|name|..] == CHECKSUM && (name + CHECKSUM)[..|name|] == name;
  }

  lemma ChecksumNameIsUtf8(name: Bytes)
    requires IsUtf8(name)
    ensures IsUtf8(name + CHECKSUM)
  {
    AsciiIsUtf8(CHECKSUM);
    Utf8Concat(name, CHECKSUM);
  }

  lemma KeyOfFile(file: Result, name: Bytes)
    requires name != [] && IsUtf8(name) && !IsChecksum(file) && Locates(file.url, name)
    ensures KeyOf(file) == Some(name)
  {
    FileNameIsRecovered(file.url, name);
  }

  lemma KeyOfCompanion(companion: Result, name: Bytes, full: Bytes)
    requires full == name + CHECKSUM && IsUtf8(full)
    requires IsChecksum(companion) && Locates(companion.url, full)
    ensures KeyOf(companion) == Some(name)
  {
    FileNameIsRecovered(companion.url, full);
    KeyOfChecksum(companion, name);
  }

  /**
   A file and its companion, each encoded in its own way and with its own query or fragment, are
   filed under the same key: the name of the file.
   */
  lemma CompanionsShareAKey(file: Result, companion: Result, name: Bytes)
    requires name != [] && IsUtf8(name)
    requires !IsChecksum(file) && Locates(file.url, name)
    requires IsChecksum(companion) && Locates(companion.url, name + CHECKSUM)
    ensures KeyOf(file) == Some(name) && KeyOf(companion) == Some(name)
  {
    ChecksumNameIsUtf8(name);
    KeyOfFile(file, name);
    KeyOfCompanion(companion, name, name + CHECKSUM);
  }

  lemma {:induction false} FiledResultsAreFound(results: seq<Result>, checksums: bool, key: Bytes, i: nat)
    requires i < |results| && FilesUnder(results[i], checksums, key)
    ensures key in FiledUnder(results, checksums)
  {
    var front := results[..|results| - 1];
    if i < |front| { FiledResultsAreFound(front, checksums, key, i); }
  }

  /** Wherever they stand in a list of results, both are found under the name of the file. */
  lemma FileAndCompanionMeet(results: seq<Result>, i: nat, j: nat, name: Bytes)
    requires i < |results| && j < |results| && name != [] && IsUtf8(name)
    requires !IsChecksum(results[i]) && Locates(results[i].url, name)
    requires IsChecksum(results[j]) && Locates(results[j].url, name + CHECKSUM)
    ensures name in FiledUnder(results, false) && name in FiledUnder(results, true)
  {
    CompanionsShareAKey(results[i], results[j], name);
    FiledResultsAreFound(results, false, name, i);
    FiledResultsAreFound(results, true, name, j);
  }

  lemma SequenceLengthOfMore(s: Bytes, more: Bytes)
    requires SequenceLength(s) > 0
    ensures SequenceLength(s + more) == SequenceLength(s)
  {
    assert forall i | 0 <= i < |s| :: (s + more)[i] == s[i];
  }

  lemma {:induction false} Utf8Concat(s: Bytes, more: Bytes)
    requires IsUtf8(s) && IsUtf8(more)
    ensures IsUtf8(s + more)
  {
    if s == [] {
      assert s + more == more;
    } else {
      var n := SequenceLength(s);
      SequenceLengthOfMore(s, more);
      assert (s + more)[n..] == s[n..] + more;
      Utf8Concat(s[n..], more);
    }
  }

  lemma {:induction false} AsciiIsUtf8(s: Bytes)
    requires forall i | 0 <= i < |s| :: s[i] < 0x80
    ensures IsUtf8(s)
  {
    if s != [] {
      assert SequenceLength(s) == 1;
      AsciiIsUtf8(s[1..]);
    }
  }
}
