/**
 The redaction of `beampipe-security`, through which clients see stored configurations: values
 under secret names are replaced as a whole, and texts lose what follows markers like `token=`.
 */
module Redaction {
  import opened Json
  import opened Options
  import opened Text

  const PLACEHOLDER: string := "[REDACTED]"

  // ---------------------------------------------------------------- values behind markers

  predicate IsDelimiter(c: char) {
    c == '&' || IsSpace(c) || c == '"' || c == '\''
  }

  /** The length of a value that starts here: up to the next delimiter. */
  function ValueLength(s: string): (n: nat)
    ensures n <= |s|
  {
    if s == "" || IsDelimiter(s[0]) then 0 else 1 + ValueLength(s[1..])
  }

  /** Where the value ends that starts at an index. */
  function ValueEnd(s: string, start: nat): (end: nat)
    requires start <= |s|
    ensures start <= end <= |s|
  {
    start + ValueLength(s[start..])
  }

  /** Where the value behind the first occurrence of a marker starts. */
  function ValueStart(s: string, marker: string): (start: Option<nat>)
    ensures start.Some? ==> |marker| <= start.value <= |s|
  {
    var at := Find(LowerAscii(s), marker);
    if at.None? then None else Some(at.value + |marker|)
  }

  /** The text with the placeholder behind every occurrence of a marker, in any case. */
  function RedactedAfter(s: string, marker: string): string
    requires marker != ""
    decreases |s|
  {
    var start := ValueStart(s, marker);
    if start.None? then s
    else s[..start.value] + PLACEHOLDER + RedactedAfter(s[ValueEnd(s, start.value)..], marker)
  }

  /** What the first occurrence of a marker makes of a text. */
  lemma FirstReplacement(s: string, marker: string, start: nat, rest: string)
    requires marker != "" && ValueStart(s, marker) == Some(start) && rest == s[ValueEnd(s, start)..]
    ensures RedactedAfter(s, marker) == s[..start] + PLACEHOLDER + RedactedAfter(rest, marker)
  {
  }

  /** The loop, on the text that is still to be searched. */
  method RedactAfterMarker(input: string, marker: string) returns (result: string)
    requires marker != ""
    ensures result == RedactedAfter(input, marker)
  {
    result := "";
    var rest := input;
    var found := ValueStart(rest, marker);
    while found.Some?
      invariant found == ValueStart(rest, marker)
      invariant result + RedactedAfter(rest, marker) == RedactedAfter(input, marker)
      decreases |rest|
    {
      var start := found.value;
      var after := rest[ValueEnd(rest, start)..];
      FirstReplacement(rest, marker, start, after);
      RegroupThree(result, rest[..start], PLACEHOLDER, RedactedAfter(after, marker));
      result := result + rest[..start] + PLACEHOLDER;
      rest := after;
      found := ValueStart(rest, marker);
    }
    result := result + rest;
  }

  lemma RegroupThree(a: string, b: string, c: string, d: string)
    ensures a + (b + c + d) == a + b + c + d
  {
  }

  const MARKERS: seq<string> :=
    ["password=", "passphrase=", "passcode=", "token=", "access_token=", "id_token=", "secret=", "apikey=",
     "api_key=", "authorization="]

  /** The text after the first `n` markers have been dealt with. */
  function RedactedBy(s: string, n: nat): string
    requires n <= |MARKERS|
  {
    if n == 0 then s else RedactedAfter(RedactedBy(s, n - 1), MARKERS[n - 1])
  }

  function RedactedText(s: string): string {
    RedactedBy(s, |MARKERS|)
  }

  method RedactString(input: string) returns (out: string)
    ensures out == RedactedText(input)
  {
    out := input;
    for i := 0 to |MARKERS|
      invariant out == RedactedBy(input, i)
    {
      out := RedactAfterMarker(out, MARKERS[i]);
    }
  }

  // ---------------------------------------------------------------- pieces between delimiters

  predicate OnePiece(s: string) {
    forall c <- s :: !IsDelimiter(c)
  }

  /** The parts of a text between its delimiters. */
  function Pieces(s: string): (pieces: seq<string>)
    ensures |pieces| > 0
  {
    var n := ValueLength(s);
    if n == |s| then [s] else [s[..n]] + Pieces(s[n + 1..])
  }

  /** Behind every occurrence of the marker, the piece goes on with the placeholder and ends. */
  predicate Masked(piece: string, marker: string) {
    forall i: nat | i <= |piece| && OccursAt(LowerAscii(piece), marker, i) :: piece[i + |marker|..] == PLACEHOLDER
  }

  /** Nothing in the text is secret to the redaction, or it is hidden already. */
  predicate OpenText(s: string) {
    forall piece <- Pieces(s), marker <- MARKERS :: Masked(piece, marker)
  }

  predicate MarkerChar(c: char) {
    'a' <= c <= 'z' || c == '_' || c == '='
  }

  /** What the proofs use of a marker. */
  predicate IsMarker(m: string) {
    m != "" && m[|m| - 1] == '=' && forall c <- m :: MarkerChar(c)
  }

  lemma MarkersAreMarkers(k: nat)
    requires k < |MARKERS|
    ensures IsMarker(MARKERS[k])
  {
  }

  lemma DelimitersAreApart(c: char)
    requires IsDelimiter(c)
    ensures !MarkerChar(c) && !('A' <= c <= 'Z')
  {
  }

  // ---------------------------------------------------------------- redaction works piece by piece

  /** The value that starts a piece followed by a delimiter is the whole piece. */
  lemma {:induction false} ValueIsPiece(piece: string, rest: string)
    requires OnePiece(piece) && (rest == "" || IsDelimiter(rest[0]))
    ensures ValueLength(piece + rest) == |piece|
  {
    if piece == "" {
      assert piece + rest == rest;
    } else {
      assert (piece + rest)[1..] == piece[1..] + rest;
      ValueIsPiece(piece[1..], rest);
    }
  }

  lemma OnePieceFrom(piece: string, i: nat)
    requires OnePiece(piece) && i <= |piece|
    ensures OnePiece(piece[i..]) && OnePiece(piece[..i])
  {
    assert forall c <- piece[i..] :: c in piece;
    assert forall c <- piece[..i] :: c in piece;
  }

  lemma PlaceholderIsOnePiece()
    ensures OnePiece(PLACEHOLDER) && '=' !in PLACEHOLDER
  {
  }

  /** In one piece, at most the first occurrence counts: the placeholder ends the piece. */
  lemma RedactedPiece(piece: string, marker: string)
    requires OnePiece(piece) && marker != ""
    ensures var start := ValueStart(piece, marker);
            RedactedAfter(piece, marker) == if start.None? then piece else piece[..start.value] + PLACEHOLDER
    ensures OnePiece(RedactedAfter(piece, marker))
  {
    if ValueStart(piece, marker).Some? {
      var start := ValueStart(piece, marker).value;
      OnePieceFrom(piece, start);
      ValueIsPiece(piece[start..], "");
      assert piece[start..] + "" == piece[start..] && piece[|piece|..] == "";
      PlaceholderIsOnePiece();
    }
  }

  lemma LowerConcat(a: string, b: string)
    ensures LowerAscii(a + b) == LowerAscii(a) + LowerAscii(b)
  {
  }

  /** An occurrence in two pieces is in one of them, as it has no delimiter itself. */
  lemma OccursInOnePart(a: string, c: char, b: string, marker: string, i: nat)
    requires IsMarker(marker) && IsDelimiter(c)
    ensures OccursAt(LowerAscii(a + [c] + b), marker, i) <==>
            || OccursAt(LowerAscii(a), marker, i)
            || (i > |a| && OccursAt(LowerAscii(b), marker, i - |a| - 1))
  {
    DelimitersAreApart(c);
    LowerConcat(a + [c], b);
    LowerConcat(a, [c]);
    var x, n := LowerAscii(a) + [c] + LowerAscii(b), |marker|;
    assert LowerAscii(a + [c] + b) == x;
    if i <= |a| < i + n <= |x| {
      assert x[i + (|a| - i)] == c && marker[|a| - i] in marker;
    }
  }

  lemma RedactedInFirst(a: string, c: char, b: string, marker: string)
    requires OnePiece(a) && IsDelimiter(c) && IsMarker(marker) && ValueStart(a, marker).Some?
    ensures RedactedAfter(a + [c] + b, marker) == RedactedAfter(a, marker) + RedactedAfter([c] + b, marker)
  {
    var start := ValueStart(a, marker).value;
    FirstOfTwo(a, c, b, marker);
    RedactedPiece(a, marker);
    ValueEndsPiece(a, c, b, start);
    FirstReplacement(a + [c] + b, marker, start, [c] + b);
  }

  lemma ValueEndsPiece(a: string, c: char, b: string, start: nat)
    requires OnePiece(a) && IsDelimiter(c) && start <= |a|
    ensures ValueEnd(a + [c] + b, start) == |a|
    ensures (a + [c] + b)[|a|..] == [c] + b && (a + [c] + b)[..start] == a[..start]
  {
    var s := a + [c] + b;
    OnePieceFrom(a, start);
    ValueIsPiece(a[start..], [c] + b);
    assert s[start..] == a[start..] + ([c] + b);
  }

  lemma RedactedInSecond(a: string, c: char, b: string, marker: string)
    requires IsDelimiter(c) && IsMarker(marker) && ValueStart(a, marker).None?
    ensures RedactedAfter(a + [c] + b, marker) == a + [c] + RedactedAfter(b, marker)
  {
    FirstOfTwo(a, c, b, marker);
    if ValueStart(b, marker).Some? {
      var start := ValueStart(b, marker).value;
      var end := ValueEnd(b, start);
      SlicesOfSecond(a + [c], b, start);
      SlicesOfSecond(a + [c], b, end);
      FirstReplacement(b, marker, start, b[end..]);
      FirstReplacement(a + [c] + b, marker, |a| + 1 + start, b[end..]);
      RegroupThree(a + [c], b[..start], PLACEHOLDER, RedactedAfter(b[end..], marker));
    }
  }

  lemma SlicesOfSecond(a: string, b: string, i: nat)
    requires i <= |b|
    ensures (a + b)[|a| + i..] == b[i..] && (a + b)[..|a| + i] == a + b[..i]
  {
  }

  lemma RedactedFromDelimiter(c: char, b: string, marker: string)
    requires IsDelimiter(c) && IsMarker(marker)
    ensures RedactedAfter([c] + b, marker) == [c] + RedactedAfter(b, marker)
  {
    RedactedInSecond("", c, b, marker);
    assert "" + [c] + b == [c] + b && "" + [c] == [c];
  }

  /** A text is redacted by redacting the piece before its first delimiter and the rest. */
  lemma RedactedInParts(a: string, c: char, b: string, marker: string)
    requires OnePiece(a) && IsDelimiter(c) && IsMarker(marker)
    ensures RedactedAfter(a + [c] + b, marker) == RedactedAfter(a, marker) + [c] + RedactedAfter(b, marker)
  {
    if ValueStart(a, marker).Some? {
      RedactedInFirst(a, c, b, marker);
      RedactedFromDelimiter(c, b, marker);
      RegroupTwo(RedactedAfter(a, marker), [c], RedactedAfter(b, marker));
    } else {
      RedactedInSecond(a, c, b, marker);
    }
  }

  lemma RegroupTwo(a: string, b: string, c: string)
    ensures a + (b + c) == a + b + c
  {
  }

  lemma FirstOfTwo(a: string, c: char, b: string, marker: string)
    requires IsDelimiter(c) && IsMarker(marker)
    ensures var inA, inB := ValueStart(a, marker), ValueStart(b, marker);
            ValueStart(a + [c] + b, marker) ==
              if inA.Some? then inA else if inB.Some? then Some(inB.value + |a| + 1) else None
  {
    if Find(LowerAscii(a), marker).Some? {
      FoundInFirst(a, c, b, marker);
    } else if Find(LowerAscii(b), marker).Some? {
      FoundInSecond(a, c, b, marker);
    } else if Find(LowerAscii(a + [c] + b), marker).Some? {
      FoundInOne(a, c, b, marker);
    }
  }

  lemma FoundInFirst(a: string, c: char, b: string, marker: string)
    requires IsDelimiter(c) && IsMarker(marker) && Find(LowerAscii(a), marker).Some?
    ensures Find(LowerAscii(a + [c] + b), marker) == Find(LowerAscii(a), marker)
  {
    var at := Find(LowerAscii(a), marker).value;
    FindFinds(LowerAscii(a), marker);
    OccursInOnePart(a, c, b, marker, at);
    FindIsFirst(LowerAscii(a + [c] + b), marker, at);
    FoundInOne(a, c, b, marker);
  }

  lemma FoundInSecond(a: string, c: char, b: string, marker: string)
    requires IsDelimiter(c) && IsMarker(marker)
    requires Find(LowerAscii(a), marker).None? && Find(LowerAscii(b), marker).Some?
    ensures Find(LowerAscii(a + [c] + b), marker) == Some(Find(LowerAscii(b), marker).value + |a| + 1)
  {
    OccursBehind(a, c, b, marker);
    FoundInOne(a, c, b, marker);
  }

  /** What is found in the second part is found in the whole by then. */
  lemma OccursBehind(a: string, c: char, b: string, marker: string)
    requires IsDelimiter(c) && IsMarker(marker) && Find(LowerAscii(b), marker).Some?
    ensures var found := Find(LowerAscii(a + [c] + b), marker);
            found.Some? && found.value <= Find(LowerAscii(b), marker).value + |a| + 1
  {
    var at := Find(LowerAscii(b), marker).value + |a| + 1;
    FindFinds(LowerAscii(b), marker);
    OccursInOnePart(a, c, b, marker, at);
    FindIsFirst(LowerAscii(a + [c] + b), marker, at);
  }

  /** What is found in the whole is found no later in one of the parts. */
  lemma FoundInOne(a: string, c: char, b: string, marker: string)
    requires IsDelimiter(c) && IsMarker(marker) && Find(LowerAscii(a + [c] + b), marker).Some?
    ensures var at := Find(LowerAscii(a + [c] + b), marker).value;
            || (Find(LowerAscii(a), marker).Some? && Find(LowerAscii(a), marker).value <= at)
            || (Find(LowerAscii(b), marker).Some? && Find(LowerAscii(b), marker).value + |a| + 1 <= at)
  {
    var at := Find(LowerAscii(a + [c] + b), marker).value;
    FindFinds(LowerAscii(a + [c] + b), marker);
    OccursInOnePart(a, c, b, marker, at);
    if OccursAt(LowerAscii(a), marker, at) {
      FindIsFirst(LowerAscii(a), marker, at);
    } else {
      FindIsFirst(LowerAscii(b), marker, at - |a| - 1);
    }
  }

  lemma {:induction false} RedactedByPiece(piece: string, n: nat)
    requires OnePiece(piece) && n <= |MARKERS|
    ensures OnePiece(RedactedBy(piece, n))
  {
    if n > 0 {
      RedactedByPiece(piece, n - 1);
      MarkersAreMarkers(n - 1);
      RedactedPiece(RedactedBy(piece, n - 1), MARKERS[n - 1]);
    }
  }

  lemma {:induction false} RedactedByParts(a: string, c: char, b: string, n: nat)
    requires OnePiece(a) && IsDelimiter(c) && n <= |MARKERS|
    ensures RedactedBy(a + [c] + b, n) == RedactedBy(a, n) + [c] + RedactedBy(b, n)
  {
    if n > 0 {
      RedactedByParts(a, c, b, n - 1);
      RedactedByPiece(a, n - 1);
      MarkersAreMarkers(n - 1);
      RedactedInParts(RedactedBy(a, n - 1), c, RedactedBy(b, n - 1), MARKERS[n - 1]);
    }
  }

  // ---------------------------------------------------------------- texts that stay as they are

  /** All markers so far leave a piece alone, or it is cut behind an `=` and ends in the placeholder. */
  ghost predicate CutAt(piece: string, after: string, j: nat) {
    0 < j <= |piece| && piece[j - 1] == '=' && after == piece[..j] + PLACEHOLDER
  }

  /** Where a marker cuts a piece that ends in the placeholder already. */
  lemma CutAgain(piece: string, before: string, j: nat, marker: string) returns (j': nat)
    requires OnePiece(piece) && OnePiece(before) && IsMarker(marker) && CutAt(piece, before, j)
    ensures j' <= j && CutAt(piece, RedactedAfter(before, marker), j')
  {
    RedactedPiece(before, marker);
    PlaceholderIsOnePiece();
    var at := Find(LowerAscii(before), marker);
    if at.None? {
      j' := j;
    } else {
      j' := at.value + |marker|;
      assert ValueStart(before, marker) == Some(j');
      FindFinds(LowerAscii(before), marker);
      LastOfMarker(before, marker, at.value);
      CutFurther(piece, before, j, j');
    }
  }

  /** A sign in a piece that was cut stands in front of the cut. */
  lemma CutFurther(piece: string, before: string, j: nat, j': nat)
    requires CutAt(piece, before, j) && 0 < j' <= |before| && before[j' - 1] == '='
    ensures j' <= j && before[..j'] == piece[..j'] && piece[j' - 1] == '='
  {
    PlaceholderIsOnePiece();
    forall i | j <= i < |before| ensures before[i] != '=' { assert before[i] == PLACEHOLDER[i - j]; }
  }

  lemma LastOfMarker(s: string, marker: string, i: nat)
    requires IsMarker(marker) && OccursAt(LowerAscii(s), marker, i)
    ensures s[i + |marker| - 1] == '='
  {
    assert LowerAscii(s)[i + (|marker| - 1)] == '=';
  }

  lemma CutFirst(piece: string, marker: string) returns (j: nat)
    requires OnePiece(piece) && IsMarker(marker)
    ensures RedactedAfter(piece, marker) == piece || CutAt(piece, RedactedAfter(piece, marker), j)
  {
    RedactedPiece(piece, marker);
    var at := Find(LowerAscii(piece), marker);
    j := 0;
    if at.Some? {
      j := at.value + |marker|;
      FindFinds(LowerAscii(piece), marker);
      LastOfMarker(piece, marker, at.value);
    }
  }

  lemma {:induction false} CutShape(piece: string, n: nat) returns (j: nat)
    requires OnePiece(piece) && n <= |MARKERS|
    ensures RedactedBy(piece, n) == piece || CutAt(piece, RedactedBy(piece, n), j)
  {
    j := 0;
    if n > 0 {
      j := CutShape(piece, n - 1);
      RedactedByPiece(piece, n - 1);
      MarkersAreMarkers(n - 1);
      if RedactedBy(piece, n - 1) != piece {
        j := CutAgain(piece, RedactedBy(piece, n - 1), j, MARKERS[n - 1]);
      } else {
        j := CutFirst(piece, MARKERS[n - 1]);
      }
    }
  }

  /** A piece that was cut with an effect never gets back to what it was. */
  lemma NeverBack(piece: string, before: string, j: nat, marker: string)
    requires OnePiece(piece) && OnePiece(before) && IsMarker(marker) && CutAt(piece, before, j) && before != piece
    ensures RedactedAfter(before, marker) != piece
  {
    var j' := CutAgain(piece, before, j, marker);
    PlaceholderIsOnePiece();
    if j' < j {
      var after := piece[..j'] + PLACEHOLDER;
      if j - 1 < |after| { assert after[j - 1] == PLACEHOLDER[j - 1 - j']; }
    }
  }

  lemma EndsInPlaceholder(piece: string, marker: string, start: nat)
    requires OnePiece(piece) && marker != ""
    requires ValueStart(piece, marker) == Some(start) && piece[start..] == PLACEHOLDER
    ensures RedactedAfter(piece, marker) == piece
  {
    RedactedPiece(piece, marker);
    Rejoined(piece, start);
  }

  lemma Rejoined(s: string, i: nat)
    requires i <= |s|
    ensures s[..i] + s[i..] == s
  {
  }

  lemma MaskedPieceStays(piece: string, marker: string)
    requires OnePiece(piece) && IsMarker(marker) && Masked(piece, marker)
    ensures RedactedAfter(piece, marker) == piece
  {
    var at := Find(LowerAscii(piece), marker);
    if at.Some? {
      FindFinds(LowerAscii(piece), marker);
      EndsInPlaceholder(piece, marker, at.value + |marker|);
    }
  }

  /** In a piece that ends in the placeholder, nothing is found behind the place where that starts. */
  lemma OccursBefore(piece: string, start: nat, marker: string, i: nat)
    requires start <= |piece| && piece[start..] == PLACEHOLDER && IsMarker(marker)
    requires OccursAt(LowerAscii(piece), marker, i)
    ensures i + |marker| <= start
  {
    PlaceholderIsOnePiece();
    LastOfMarker(piece, marker, i);
    forall k | start <= k < |piece| ensures piece[k] != '=' { assert piece[k] == PLACEHOLDER[k - start]; }
  }

  lemma StayingPieceIsMasked(piece: string, marker: string)
    requires OnePiece(piece) && IsMarker(marker) && RedactedAfter(piece, marker) == piece
    ensures Masked(piece, marker)
  {
    RedactedPiece(piece, marker);
    forall i: nat | i <= |piece| && OccursAt(LowerAscii(piece), marker, i) ensures piece[i + |marker|..] == PLACEHOLDER {
      FindIsFirst(LowerAscii(piece), marker, i);
      var start := ValueStart(piece, marker).value;
      assert piece[start..] == PLACEHOLDER by { assert piece == piece[..start] + PLACEHOLDER; }
      OccursBefore(piece, start, marker, i);
    }
  }

  /** A marker leaves a piece alone exactly if it is masked behind each occurrence. */
  lemma PieceStaysExactly(piece: string, marker: string)
    requires OnePiece(piece) && IsMarker(marker)
    ensures RedactedAfter(piece, marker) == piece <==> Masked(piece, marker)
  {
    if Masked(piece, marker) {
      MaskedPieceStays(piece, marker);
    } else if RedactedAfter(piece, marker) == piece {
      StayingPieceIsMasked(piece, marker);
    }
  }

  lemma {:induction false} PieceStaysByExactly(piece: string, n: nat)
    requires OnePiece(piece) && n <= |MARKERS|
    ensures RedactedBy(piece, n) == piece <==> forall k | 0 <= k < n :: Masked(piece, MARKERS[k])
  {
    if n > 0 {
      PieceStaysByExactly(piece, n - 1);
      OneMoreMarker(piece, n);
    }
  }

  /** A piece stays as it is exactly if it did so far and the next marker leaves it alone. */
  lemma OneMoreMarker(piece: string, n: nat)
    requires OnePiece(piece) && 0 < n <= |MARKERS|
    ensures RedactedBy(piece, n) == piece <==> RedactedBy(piece, n - 1) == piece && Masked(piece, MARKERS[n - 1])
  {
    MarkersAreMarkers(n - 1);
    if RedactedBy(piece, n - 1) == piece {
      PieceStaysExactly(piece, MARKERS[n - 1]);
    } else {
      var j := CutShape(piece, n - 1);
      RedactedByPiece(piece, n - 1);
      NeverBack(piece, RedactedBy(piece, n - 1), j, MARKERS[n - 1]);
    }
  }

  lemma PartsAreDetermined(a: string, b: string, x: string, y: string, c: char)
    requires OnePiece(a) && OnePiece(x) && IsDelimiter(c)
    ensures a + [c] + b == x + [c] + y <==> a == x && b == y
  {
    if a + [c] + b == x + [c] + y {
      assert a + [c] + b == a + ([c] + b) && x + [c] + y == x + ([c] + y);
      ValueIsPiece(a, [c] + b);
      ValueIsPiece(x, [c] + y);
      assert |a| == |x|;
      assert a == (a + [c] + b)[..|a|] && x == (x + [c] + y)[..|a|];
      assert b == (a + [c] + b)[|a| + 1..] && y == (x + [c] + y)[|a| + 1..];
    }
  }

  predicate AllMasked(piece: string) {
    forall marker <- MARKERS :: Masked(piece, marker)
  }

  lemma OnePieceStaysExactly(piece: string)
    requires OnePiece(piece)
    ensures RedactedText(piece) == piece <==> AllMasked(piece)
    ensures OnePiece(RedactedText(piece))
  {
    PieceStaysByExactly(piece, |MARKERS|);
    RedactedByPiece(piece, |MARKERS|);
    assert (forall k | 0 <= k < |MARKERS| :: Masked(piece, MARKERS[k])) ==> AllMasked(piece);
  }

  lemma {:induction false} OpenInParts(a: string, c: char, b: string)
    requires OnePiece(a) && IsDelimiter(c)
    ensures OpenText(a + [c] + b) <==> AllMasked(a) && OpenText(b)
    ensures OpenText(a) <==> AllMasked(a)
  {
    assert a + [c] + b == a + ([c] + b) && a + "" == a;
    ValueIsPiece(a, [c] + b);
    ValueIsPiece(a, "");
    assert (a + [c] + b)[..|a|] == a && (a + [c] + b)[|a| + 1..] == b;
    assert Pieces(a + [c] + b) == [a] + Pieces(b) && Pieces(a) == [a];
    assert forall piece :: piece in Pieces(a + [c] + b) <==> piece == a || piece in Pieces(b);
  }

  lemma {:induction false} FirstPiece(s: string)
    ensures OnePiece(s[..ValueLength(s)]) && (ValueLength(s) < |s| ==> IsDelimiter(s[ValueLength(s)]))
  {
    if s != "" && !IsDelimiter(s[0]) {
      FirstPiece(s[1..]);
      assert s[..ValueLength(s)] == [s[0]] + s[1..][..ValueLength(s[1..])];
    }
  }

  /** The redaction leaves a text alone exactly if each of its pieces is masked behind every marker. */
  lemma {:induction false} TextStaysExactly(s: string)
    ensures RedactedText(s) == s <==> OpenText(s)
    decreases |s|
  {
    var n := ValueLength(s);
    FirstPiece(s);
    OnePieceStaysExactly(s[..n]);
    if n == |s| {
      assert s[..n] == s;
      OpenInParts(s, '&', "");
    } else {
      TextStaysExactly(s[n + 1..]);
      JoinedParts(s, n);
      PartsStayExactly(s, s[..n], s[n], s[n + 1..]);
    }
  }

  lemma JoinedParts(s: string, n: nat)
    requires n < |s|
    ensures s == s[..n] + [s[n]] + s[n + 1..]
  {
  }

  lemma PartsStayExactly(s: string, a: string, c: char, b: string)
    requires s == a + [c] + b && OnePiece(a) && IsDelimiter(c)
    requires RedactedText(a) == a <==> AllMasked(a)
    requires RedactedText(b) == b <==> OpenText(b)
    ensures RedactedText(s) == s <==> OpenText(s)
  {
    StaysInParts(a, c, b);
    OpenInParts(a, c, b);
  }

  lemma StaysInParts(a: string, c: char, b: string)
    requires OnePiece(a) && IsDelimiter(c)
    ensures RedactedText(a + [c] + b) == a + [c] + b <==> RedactedText(a) == a && RedactedText(b) == b
  {
    RedactedByParts(a, c, b, |MARKERS|);
    RedactedByPiece(a, |MARKERS|);
    PartsAreDetermined(RedactedText(a), RedactedText(b), a, b, c);
  }

  predicate OnlyEqualsSign(piece: string, e: nat) {
    e < |piece| && forall i | 0 <= i < |piece| :: piece[i] == '=' <==> i == e
  }

  /** A piece with one `=` and a marker in front of it is cut there. */
  lemma CutBehindSign(piece: string, e: nat, marker: string)
    requires OnePiece(piece) && OnlyEqualsSign(piece, e) && marker in MARKERS
    requires |marker| <= e + 1 && OccursAt(LowerAscii(piece), marker, e + 1 - |marker|) && piece[e + 1..] != PLACEHOLDER
    ensures RedactedText(piece) == piece[..e + 1] + PLACEHOLDER
  {
    assert !Masked(piece, marker);
    OnePieceStaysExactly(piece);
    var j := CutShape(piece, |MARKERS|);
  }

  // ---------------------------------------------------------------- secrets in a text

  /** The markers by which secrets are recognised in a text, in upper or lower case. */
  predicate MarksSecret(m: string) {
    LowerAscii(m) in {"password=", "passphrase=", "passcode=", "token=", "access_token=", "id_token=", "secret=",
                      "apikey=", "api_key=", "authorization="}
  }

  lemma MarkersMark(m: string)
    requires MarksSecret(m)
    ensures LowerAscii(m) in MARKERS && IsMarker(LowerAscii(m))
  {
    var lower := LowerAscii(m);
    assert exists k: nat :: k < |MARKERS| && MARKERS[k] == lower by {
      assert MARKERS[0] == "password=" && MARKERS[1] == "passphrase=" && MARKERS[2] == "passcode=" && MARKERS[3] == "token=";
      assert MARKERS[4] == "access_token=" && MARKERS[5] == "id_token=" && MARKERS[6] == "secret=";
      assert MARKERS[7] == "apikey=" && MARKERS[8] == "api_key=" && MARKERS[9] == "authorization=";
    }
    var k: nat :| k < |MARKERS| && MARKERS[k] == lower;
    MarkersAreMarkers(k);
  }

  /** A marker has one sign, at its end. */
  predicate EndsInSign(m: string) {
    m != "" && forall i | 0 <= i < |m| :: m[i] == '=' <==> i == |m| - 1
  }

  lemma LowerSigns(m: string)
    ensures forall i | 0 <= i < |m| :: LowerAscii(m)[i] == '=' <==> m[i] == '='
  {
  }

  lemma MarkersEndInSign(m: string)
    requires MarksSecret(m)
    ensures EndsInSign(m)
  {
    LowerSigns(m);
    NoOtherSign(LowerAscii(m));
  }

  lemma NoOtherSign(m: string)
    requires m in {"password=", "passphrase=", "passcode=", "token=", "access_token=", "id_token=", "secret=",
                   "apikey=", "api_key=", "authorization="}
    ensures EndsInSign(m)
  {
  }

  lemma SignIsBehindMarker(before: string, m: string, secret: string)
    requires '=' !in before && '=' !in secret && EndsInSign(m)
    ensures var text, e := before + m + secret, |before| + |m| - 1;
            OnlyEqualsSign(text, e) && text[..e + 1] == before + m && text[e + 1..] == secret
  {
    var text, e := before + m + secret, |before| + |m| - 1;
    forall i | 0 <= i < |text| ensures text[i] == '=' <==> i == e {
      if i < |before| { assert text[i] == before[i]; }
      else if i < |before| + |m| {
        assert text[i] == m[i - |before|];
      } else { assert text[i] == secret[i - |before| - |m|]; }
    }
  }

  lemma MarkerOccurs(before: string, m: string, secret: string)
    ensures OccursAt(LowerAscii(before + m + secret), LowerAscii(m), |before|)
  {
    LowerConcat(before + m, secret);
    LowerConcat(before, m);
  }

  lemma PieceWithSecret(before: string, m: string, secret: string)
    requires OnePiece(before) && OnePiece(secret) && IsMarker(LowerAscii(m))
    ensures OnePiece(before + m + secret)
  {
    forall c <- m ensures !IsDelimiter(c) {
      var i :| 0 <= i < |m| && m[i] == c;
      assert MarkerChar(LowerAscii(m)[i]);
      if IsDelimiter(c) { DelimitersAreApart(c); }
    }
  }

  /** A secret behind a marker, to the end of its piece. */
  lemma SecretIsCut(before: string, m: string, secret: string)
    requires OnePiece(before) && '=' !in before && OnePiece(secret) && '=' !in secret && secret != PLACEHOLDER
    requires LowerAscii(m) in MARKERS && IsMarker(LowerAscii(m)) && EndsInSign(m)
    ensures RedactedText(before + m + secret) == before + m + PLACEHOLDER
  {
    MarkerOccurs(before, m, secret);
    SignIsBehindMarker(before, m, secret);
    PieceWithSecret(before, m, secret);
    CutBehindSign(before + m + secret, |before| + |m| - 1, LowerAscii(m));
  }

  /** A piece whose only sign stands in front of the placeholder is shown as it is. */
  lemma HiddenStays(piece: string, e: nat)
    requires OnePiece(piece) && OnlyEqualsSign(piece, e) && piece[e + 1..] == PLACEHOLDER
    ensures RedactedText(piece) == piece
  {
    forall k: nat | k < |MARKERS| ensures Masked(piece, MARKERS[k]) {
      MarkersAreMarkers(k);
      forall i: nat | i <= |piece| && OccursAt(LowerAscii(piece), MARKERS[k], i)
        ensures piece[i + |MARKERS[k]|..] == PLACEHOLDER
      {
        LastOfMarker(piece, MARKERS[k], i);
      }
    }
    OnePieceStaysExactly(piece);
  }

  predicate EndsSecret(c: char) {
    c == '&' || c == '"' || c == '\'' || IsSpace(c)
  }

  predicate HasNoEnd(s: string) {
    forall c <- s :: !EndsSecret(c)
  }

  lemma NoEndIsOnePiece(s: string)
    requires HasNoEnd(s)
    ensures OnePiece(s)
  {
  }

  /**
   Inside a text, a secret ends at the next space, quote or ampersand: it is replaced, and what
   stands before and behind it is kept.
   */
  lemma SecretIsReplaced(before: string, m: string, secret: string, c: char, rest: string)
    requires HasNoEnd(before) && '=' !in before && HasNoEnd(secret) && '=' !in secret
    requires MarksSecret(m) && EndsSecret(c)
    ensures RedactedText(before + m + secret + [c] + rest) == before + m + PLACEHOLDER + [c] + RedactedText(rest)
  {
    MarkersMark(m);
    MarkersEndInSign(m);
    NoEndIsOnePiece(before);
    NoEndIsOnePiece(secret);
    PieceWithSecret(before, m, secret);
    if secret == PLACEHOLDER {
      SignIsBehindMarker(before, m, secret);
      HiddenStays(before + m + secret, |before| + |m| - 1);
    } else {
      SecretIsCut(before, m, secret);
    }
    RedactedByParts(before + m + secret, c, rest, |MARKERS|);
  }

  // ---------------------------------------------------------------- values

  const SECRET_NAMES: seq<string> :=
    ["password", "passphrase", "passcode", "token", "secret", "credential", "authorization", "routing_key",
     "private_key", "webhook", "api_key"]

  /** A key is secret exactly if it contains one of these words, in upper or lower case. */
  lemma SecretKeysAre(key: string)
    ensures IsSecretKey(key) <==> exists word: string :: Contains(LowerAscii(key), word) && IsSecretWord(word)
  {
    assert forall word: string :: IsSecretWord(word) ==> word in SECRET_NAMES by {
      assert SECRET_NAMES[0] == "password" && SECRET_NAMES[1] == "passphrase" && SECRET_NAMES[2] == "passcode";
      assert SECRET_NAMES[3] == "token" && SECRET_NAMES[4] == "secret" && SECRET_NAMES[5] == "credential";
      assert SECRET_NAMES[6] == "authorization" && SECRET_NAMES[7] == "routing_key" && SECRET_NAMES[8] == "private_key";
      assert SECRET_NAMES[9] == "webhook" && SECRET_NAMES[10] == "api_key";
    }
  }

  predicate IsSecretWord(word: string) {
    word in {"password", "passphrase", "passcode", "token", "secret", "credential", "authorization", "routing_key",
             "private_key", "webhook", "api_key"}
  }

  predicate IsSecretKey(key: string) {
    exists name <- SECRET_NAMES :: Contains(LowerAscii(key), name)
  }

  function RedactedField(key: string, value: Json): Json
    decreases value, 1
  {
    if IsSecretKey(key) then Str(PLACEHOLDER) else RedactedValue(value)
  }

  /** What a client is shown of a value. */
  function RedactedValue(value: Json): Json
    decreases value, 0
  {
    match value
    case Obj(fields) => Obj(map key | key in fields :: RedactedField(key, fields[key]))
    case Arr(items) => Arr(seq(|items|, i requires 0 <= i < |items| => RedactedValue(items[i])))
    case Str(s) => Str(RedactedText(s))
    case _ => value
  }

  /** The recursive walk over a value; the fields of an object come in any order. */
  method RedactValue(value: Json) returns (redacted: Json)
    ensures redacted == RedactedValue(value)
    decreases value
  {
    match value
    case Obj(fields) =>
      var out: map<string, Json> := map[];
      var remaining := fields.Keys;
      while remaining != {}
        invariant remaining <= fields.Keys && out.Keys == fields.Keys - remaining
        invariant forall key <- out :: out[key] == RedactedField(key, fields[key])
        decreases remaining
      {
        var key :| key in remaining;
        var shown := Str(PLACEHOLDER);
        if !IsSecretKey(key) {
          shown := RedactValue(fields[key]);
        }
        out := out[key := shown];
        remaining := remaining - {key};
      }
      assert out == RedactedValue(value).fields;
      redacted := Obj(out);
    case Arr(items) =>
      var out := [];
      for i := 0 to |items|
        invariant |out| == i && forall j | 0 <= j < i :: out[j] == RedactedValue(items[j])
      {
        var item := RedactValue(items[i]);
        out := out + [item];
      }
      assert out == RedactedValue(value).items;
      redacted := Arr(out);
    case Str(s) =>
      var text := RedactString(s);
      redacted := Str(text);
    case _ =>
      redacted := value;
  }

  /** Nothing in the value is secret to the redaction, or it is hidden already. */
  predicate Open(value: Json) {
    match value
    case Obj(fields) =>
      forall key <- fields :: if IsSecretKey(key) then fields[key] == Str(PLACEHOLDER) else Open(fields[key])
    case Arr(items) => forall i | 0 <= i < |items| :: Open(items[i])
    case Str(s) => OpenText(s)
    case _ => true
  }

  /** A value is shown as it is exactly if nothing in it is secret. */
  lemma {:induction false} ShownAsItIsExactly(value: Json)
    ensures RedactedValue(value) == value <==> Open(value)
  {
    match value
    case Obj(fields) =>
      var shown := RedactedValue(value).fields;
      forall key <- fields
        ensures shown[key] == fields[key] <==> if IsSecretKey(key) then fields[key] == Str(PLACEHOLDER) else Open(fields[key])
      {
        assert shown[key] == RedactedField(key, fields[key]);
        ShownAsItIsExactly(fields[key]);
      }
      if Open(value) { assert shown == fields; }
      if RedactedValue(value) == value { assert forall key <- fields :: shown[key] == fields[key]; }
    case Arr(items) =>
      var shown := RedactedValue(value).items;
      forall i | 0 <= i < |items| ensures shown[i] == items[i] <==> Open(items[i]) {
        ShownAsItIsExactly(items[i]);
      }
      if Open(value) { assert shown == items; }
      if RedactedValue(value) == value { assert forall i | 0 <= i < |items| :: shown[i] == items[i]; }
    case Str(s) => TextStaysExactly(s);
    case _ =>
  }

  lemma {:induction false} RedactedAfterIsLong(s: string, marker: string)
    requires marker != ""
    ensures RedactedAfter(s, marker) == s || |RedactedAfter(s, marker)| > |PLACEHOLDER|
  {
    if ValueStart(s, marker).Some? {
      FirstReplacement(s, marker, ValueStart(s, marker).value, s[ValueEnd(s, ValueStart(s, marker).value)..]);
    }
  }

  lemma {:induction false} OnlyThePlaceholder(s: string, n: nat)
    requires n <= |MARKERS| && RedactedBy(s, n) == PLACEHOLDER
    ensures s == PLACEHOLDER
  {
    if n > 0 {
      MarkersAreMarkers(n - 1);
      RedactedAfterIsLong(RedactedBy(s, n - 1), MARKERS[n - 1]);
      OnlyThePlaceholder(s, n - 1);
    }
  }

  /** Only the placeholder itself is shown as the placeholder. */
  lemma PlaceholderIsItself(value: Json)
    requires RedactedValue(value) == Str(PLACEHOLDER)
    ensures value == Str(PLACEHOLDER)
  {
    OnlyThePlaceholder(value.s, |MARKERS|);
  }
}
