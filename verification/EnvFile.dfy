/**
 The `.env` file of `beampipe-cli`: updating values line by line, the encoding of values, and
 reading one back as dotenv does.
 */
module EnvFile {
  import opened Options
  import opened Text

  // ---------------------------------------------------------------- values

  predicate SingleLine(value: string) {
    '\n' !in value && '\r' !in value
  }

  function EscapedChar(c: char): string {
    if c in {'\\', '"', '$'} then ['\\', c] else [c]
  }

  function Escaped(value: string): string {
    if value == "" then "" else Escaped(value[..|value| - 1]) + EscapedChar(value[|value| - 1])
  }

  /** The text between double quotes that stands for a value; only for single lines. */
  method EnvFileEncode(value: string) returns (encoded: Option<string>)
    ensures encoded == if SingleLine(value) then Some(Encoded(value)) else None
  {
    if !SingleLine(value) {
      return None;
    }
    var text := "\"";
    for i := 0 to |value|
      invariant text == "\"" + Escaped(value[..i])
    {
      assert value[..i + 1][..i] == value[..i];
      var c := value[i];
      match c
      case '\\' => text := text + "\\\\";
      case '"' => text := text + "\\\"";
      case '$' => text := text + "\\$";
      case _ => text := text + [c];
    }
    assert value[..|value|] == value;
    encoded := Some(text + "\"");
  }

  function Encoded(value: string): string {
    "\"" + Escaped(value) + "\""
  }

  /**
   What dotenv reads from the text after an opening double quote, if this is the last thing on its
   line and takes nothing from other variables.
   */
  function Unquoted(s: string): Option<string> {
    if s == "" then None
    else if s[0] == '"' then if |s| == 1 then Some("") else None
    else if s[0] == '$' then None
    else if s[0] == '\\' then
      if |s| == 1 then None
      else if s[1] in {'\\', '\'', '"', '$', ' '} then Then(s[1], Unquoted(s[2..]))
      else if s[1] == 'n' then Then('\n', Unquoted(s[2..]))
      else None
    else Then(s[0], Unquoted(s[1..]))
  }

  function Then(c: char, rest: Option<string>): Option<string> {
    if rest.None? then None else Some([c] + rest.value)
  }

  lemma {:induction false} EscapedFromFront(value: string)
    requires value != ""
    ensures Escaped(value) == EscapedChar(value[0]) + Escaped(value[1..])
  {
    var n := |value| - 1;
    if n > 0 {
      EscapedFromFront(value[..n]);
      assert value[1..][..n - 1] == value[..n][1..];
    }
  }

  /** Decoding undoes encoding, for every text. */
  lemma {:induction false} DecodingUndoesEncoding(value: string)
    ensures Unquoted(Escaped(value) + "\"") == Some(value)
  {
    if value != "" {
      DecodingUndoesEncoding(value[1..]);
      EscapedFromFront(value);
      var c, tail := value[0], Escaped(value[1..]) + "\"";
      var s := EscapedChar(c) + tail;
      assert Escaped(value) + "\"" == s;
      assert [c] + value[1..] == value;
      if c in {'\\', '"', '$'} {
        assert s[0] == '\\' && s[1] == c && s[2..] == tail;
      } else {
        assert s[0] == c && s[1..] == tail;
      }
    }
  }

  // ---------------------------------------------------------------- lines

  function WithoutReturn(line: string): string {
    if line != "" && line[|line| - 1] == '\r' then line[..|line| - 1] else line
  }

  function EachWithoutReturn(lines: seq<string>): (r: seq<string>)
    ensures |r| == |lines| && forall i | 0 <= i < |r| :: r[i] == WithoutReturn(lines[i])
  {
    seq(|lines|, i requires 0 <= i < |lines| => WithoutReturn(lines[i]))
  }

  /** `str::lines`: each line without its ending; what follows the last newline is a line unless it is empty. */
  function Lines(content: string): seq<string> {
    var parts := Split(content, '\n');
    var last := parts[|parts| - 1];
    EachWithoutReturn(parts[..|parts| - 1]) + (if last == "" then [] else [last])
  }

  function FileOf(lines: seq<string>): string {
    Join(lines, "\n") + "\n"
  }

  predicate PlainLine(line: string) {
    '\n' !in line && '\r' !in line
  }

  /** Lines as they stand in a file, some of them with a carriage return at their end. */
  function Raw(lines: seq<string>, crs: seq<bool>): (raw: seq<string>)
    requires |lines| == |crs|
    ensures |raw| == |lines| && forall i | 0 <= i < |raw| :: raw[i] == lines[i] + (if crs[i] then "\r" else "")
  {
    seq(|lines|, i requires 0 <= i < |lines| => lines[i] + (if crs[i] then "\r" else ""))
  }

  lemma RawIsRead(line: string, cr: bool)
    requires PlainLine(line)
    ensures WithoutReturn(line + (if cr then "\r" else "")) == line && '\n' !in line + (if cr then "\r" else "")
  {
  }

  /** A text is read as its lines, whatever ends them; the last one may lack its ending. */
  lemma LinesAreRead(lines: seq<string>, crs: seq<bool>, last: string)
    requires |lines| == |crs| && '\n' !in last && forall line <- lines :: PlainLine(line)
    ensures Lines(Join(Raw(lines, crs) + [last], "\n")) == lines + if last == "" then [] else [last]
  {
    var raw := Raw(lines, crs);
    forall i | 0 <= i < |raw| ensures WithoutReturn(raw[i]) == lines[i] && '\n' !in raw[i] {
      assert lines[i] in lines;
      RawIsRead(lines[i], crs[i]);
    }
    SplitUndoesJoin(raw + [last], '\n');
    assert (raw + [last])[..|raw|] == raw;
    assert EachWithoutReturn(raw) == lines;
  }

  lemma LinesOfFile(lines: seq<string>)
    requires lines != [] && forall line <- lines :: PlainLine(line)
    ensures Lines(FileOf(lines)) == lines
  {
    SplitUndoesJoin(lines, '\n');
    SplitConcat(Join(lines, "\n"), '\n', "");
    assert FileOf(lines) == Join(lines, "\n") + ['\n'] + "";
    var parts := Split(FileOf(lines), '\n');
    assert parts == lines + [""];
    assert parts[..|parts| - 1] == lines;
    forall i | 0 <= i < |lines| ensures WithoutReturn(lines[i]) == lines[i] {
      assert PlainLine(lines[i]);
    }
    assert EachWithoutReturn(lines) == lines;
  }

  lemma {:induction false} SplitKeepsCharacters(s: string)
    ensures forall p <- Split(s, '\n'), c <- p :: c in s
  {
    if s != "" {
      SplitKeepsCharacters(s[1..]);
      var rest := Split(s[1..], '\n');
      forall p <- Split(s, '\n'), c <- p ensures c in s {
        if p in rest { assert c in s[1..]; } else { assert p == "" || p == [s[0]] + rest[0]; }
      }
    }
  }

  lemma LinesArePlain(content: string)
    requires '\r' !in content
    ensures forall line <- Lines(content) :: PlainLine(line)
  {
    SplitKeepsCharacters(content);
    SplitPiecesHaveNoSeparator(content, '\n');
    var parts := Split(content, '\n');
    forall i | 0 <= i < |parts| ensures PlainLine(parts[i]) && PlainLine(WithoutReturn(parts[i])) {
      assert parts[i] in parts;
    }
  }

  // ---------------------------------------------------------------- updates

  datatype UpdateError = BadName | Repeated(key: string) | NotSingleLine

  datatype Update = Update(key: string, value: string)

  predicate IsNameChar(c: char) {
    'A' <= c <= 'Z' || '0' <= c <= '9' || c == '_'
  }

  predicate IsName(key: string) {
    key != "" && forall c <- key :: IsNameChar(c)
  }

  /** Lines that set a key, or would if they were not commented out. */
  predicate Owns(key: string, line: string) {
    key + "=" <= line || "#" + key + "=" <= line
  }

  /** What follows the sign in a line that sets a key, commented out or not. */
  lemma OwnsExactly(key: string, line: string)
    ensures Owns(key, line) <==> exists rest: string :: line == key + "=" + rest || line == "#" + key + "=" + rest
  {
    if key + "=" <= line { assert line == key + "=" + line[|key| + 1..]; }
    if "#" + key + "=" <= line { assert line == "#" + key + "=" + line[|key| + 2..]; }
  }

  function Assignment(u: Update): string {
    u.key + "=" + Encoded(u.value)
  }

  /** The first owned line is replaced and the others are dropped; whether there was one. */
  function Replaced(lines: seq<string>, u: Update): (seq<string>, bool) {
    if lines == [] then ([], false)
    else
      var last := lines[|lines| - 1];
      var (done, found) := Replaced(lines[..|lines| - 1], u);
      if !Owns(u.key, last) then (done + [last], found)
      else if !found then (done + [Assignment(u)], true)
      else (done, true)
  }

  function UpdateOne(lines: seq<string>, u: Update): seq<string> {
    var r := Replaced(lines, u);
    if r.1 then r.0 else r.0 + [Assignment(u)]
  }

  function UpdateAll(lines: seq<string>, updates: seq<Update>): seq<string> {
    if updates == [] then lines
    else UpdateOne(UpdateAll(lines, updates[..|updates| - 1]), updates[|updates| - 1])
  }

  predicate KeyAmong(updates: seq<Update>, key: string) {
    exists i | 0 <= i < |updates| :: updates[i].key == key
  }

  /** The first complaint about a list of updates. */
  function Complaint(updates: seq<Update>): Option<UpdateError> {
    if updates == [] then None
    else
      var front, last := updates[..|updates| - 1], updates[|updates| - 1];
      if Complaint(front).Some? then Complaint(front)
      else if !IsName(last.key) then Some(BadName)
      else if KeyAmong(front, last.key) then Some(Repeated(last.key))
      else if !SingleLine(last.value) then Some(NotSingleLine)
      else None
  }

  /** The checks of the next update, while there is no complaint about those before it. */
  lemma OneMoreComplaint(updates: seq<Update>, i: nat)
    requires i < |updates| && Complaint(updates[..i]).None?
    ensures var u := updates[i];
            Complaint(updates[..i + 1]) ==
              if !IsName(u.key) then Some(BadName)
              else if exists j | 0 <= j < i :: updates[j].key == u.key then Some(Repeated(u.key))
              else if !SingleLine(u.value) then Some(NotSingleLine)
              else None
    ensures Complaint(updates[..i + 1]).Some? ==> Complaint(updates) == Complaint(updates[..i + 1])
  {
    var front := updates[..i];
    assert updates[..i + 1][..i] == front;
    assert forall j | 0 <= j < i :: front[j] == updates[j];
    if Complaint(updates[..i + 1]).Some? {
      ComplaintStays(updates, i + 1);
    }
  }

  method EncodeUpdates(updates: seq<Update>) returns (error: Option<UpdateError>, replacements: seq<string>)
    ensures error == Complaint(updates)
    ensures error.None? ==> |replacements| == |updates|
    ensures error.None? ==> forall i | 0 <= i < |updates| :: replacements[i] == Assignment(updates[i])
  {
    replacements := [];
    for i := 0 to |updates|
      invariant Complaint(updates[..i]).None? && |replacements| == i
      invariant forall j | 0 <= j < i :: replacements[j] == Assignment(updates[j])
    {
      OneMoreComplaint(updates, i);
      var u := updates[i];
      var repeated := exists j | 0 <= j < i :: updates[j].key == u.key;
      if !IsName(u.key) {
        return Some(BadName), [];
      }
      if repeated {
        return Some(Repeated(u.key)), [];
      }
      var encoded := EnvFileEncode(u.value);
      if encoded.None? {
        return Some(NotSingleLine), [];
      }
      replacements := replacements + [u.key + "=" + encoded.value];
    }
    assert updates[..|updates|] == updates;
    error := None;
  }

  /** Nothing is written if one of the updates is bad; a missing file counts as empty. */
  method UpdateEnvValues(file: Option<string>, updates: seq<Update>) returns (error: Option<UpdateError>, written: Option<string>)
    ensures error == Complaint(updates)
    ensures written == (if error.Some? then None
                        else Some(Join(UpdateAll(if file.Some? then Lines(file.value) else [], updates), "\n") + "\n"))
  {
    var replacements;
    error, replacements := EncodeUpdates(updates);
    if error.Some? {
      return error, None;
    }
    var lines := if file.Some? then Lines(file.value) else [];
    ghost var before := lines;
    for i := 0 to |updates|
      invariant lines == UpdateAll(before, updates[..i])
    {
      assert updates[..i + 1][..i] == updates[..i];
      lines := ReplaceLines(lines, updates[i], replacements[i]);
    }
    assert updates[..|updates|] == updates;
    written := Some(Join(lines, "\n") + "\n");
  }

  /** The loop over the lines for one key. */
  method ReplaceLines(lines: seq<string>, u: Update, replacement: string) returns (updated: seq<string>)
    requires replacement == Assignment(u)
    ensures updated == UpdateOne(lines, u)
  {
    var found := false;
    updated := [];
    for i := 0 to |lines|
      invariant (updated, found) == Replaced(lines[..i], u)
    {
      assert lines[..i + 1][..i] == lines[..i];
      if Owns(u.key, lines[i]) {
        if !found {
          updated := updated + [replacement];
          found := true;
        }
      } else {
        updated := updated + [lines[i]];
      }
    }
    assert lines[..|lines|] == lines;
    if !found {
      updated := updated + [replacement];
    }
  }

  lemma {:induction false} ComplaintStays(updates: seq<Update>, n: nat)
    requires n <= |updates| && Complaint(updates[..n]).Some?
    ensures Complaint(updates) == Complaint(updates[..n])
  {
    if n < |updates| {
      var front := updates[..|updates| - 1];
      assert front[..n] == updates[..n];
      ComplaintStays(front, n);
    } else {
      assert updates[..n] == updates;
    }
  }

  /** What it takes for a list of updates to be carried out. */
  lemma {:induction false} NoComplaintExactly(updates: seq<Update>)
    ensures Complaint(updates).None? <==>
            && (forall i | 0 <= i < |updates| ::
                  && updates[i].key != "" && (forall c <- updates[i].key :: 'A' <= c <= 'Z' || '0' <= c <= '9' || c == '_')
                  && '\n' !in updates[i].value && '\r' !in updates[i].value)
            && (forall i, j | 0 <= i < j < |updates| :: updates[i].key != updates[j].key)
  {
    if updates != [] {
      var front, last := updates[..|updates| - 1], updates[|updates| - 1];
      NoComplaintExactly(front);
      assert forall i | 0 <= i < |front| :: updates[i] == front[i];
    }
  }

  predicate IsComplaintAbout(updates: seq<Update>, i: nat, e: UpdateError)
    requires i < |updates|
  {
    var u := updates[i];
    var repeated := exists j | 0 <= j < i :: updates[j].key == u.key;
    match e
    case BadName => !IsName(u.key)
    case Repeated(key) => IsName(u.key) && repeated && key == u.key
    case NotSingleLine => IsName(u.key) && !repeated && !SingleLine(u.value)
  }

  lemma {:induction false} FirstComplaint(updates: seq<Update>) returns (i: nat)
    requires Complaint(updates).Some?
    ensures i < |updates| && Complaint(updates[..i]).None? && IsComplaintAbout(updates, i, Complaint(updates).value)
  {
    var n := |updates| - 1;
    if Complaint(updates[..n]).Some? {
      i := FirstComplaint(updates[..n]);
      assert updates[..n][..i] == updates[..i];
      ComplaintStays(updates, n);
      OneMoreComplaint(updates, i);
    } else {
      i := n;
      OneMoreComplaint(updates, n);
      assert updates[..n + 1] == updates;
    }
  }

  /** The first update that is not in order decides the complaint: its name, its repetition, or its value. */
  lemma ComplaintExactly(updates: seq<Update>, e: UpdateError)
    ensures Complaint(updates) == Some(e) <==>
      exists i: nat :: i < |updates| && Complaint(updates[..i]).None? && IsComplaintAbout(updates, i, e)
  {
    if Complaint(updates) == Some(e) {
      var i := FirstComplaint(updates);
    }
    if i: nat :| i < |updates| && Complaint(updates[..i]).None? && IsComplaintAbout(updates, i, e) {
      OneMoreComplaint(updates, i);
    }
  }

  // ---------------------------------------------------------------- what an update does to the lines

  function Filter(keep: string -> bool, lines: seq<string>): seq<string> {
    if lines == [] then []
    else
      var front, last := lines[..|lines| - 1], lines[|lines| - 1];
      Filter(keep, front) + (if keep(last) then [last] else [])
  }

  /** The lines that set one key. */
  function OwnedLines(key: string, lines: seq<string>): seq<string> {
    Filter(line => Owns(key, line), lines)
  }

  function UnownedLines(key: string, lines: seq<string>): seq<string> {
    Filter(line => !Owns(key, line), lines)
  }

  /** The lines that have nothing to do with any updated key. */
  function OtherLines(updates: seq<Update>, lines: seq<string>): seq<string> {
    Filter(line => !exists i | 0 <= i < |updates| :: Owns(updates[i].key, line), lines)
  }

  lemma FilterOneMore(keep: string -> bool, front: seq<string>, last: string)
    ensures Filter(keep, front + [last]) == Filter(keep, front) + (if keep(last) then [last] else [])
  {
    assert (front + [last])[..|front|] == front;
  }

  lemma KeyEndsAtSign(key: string, s: string)
    requires key + "=" <= s
    ensures |key| < |s| && s[|key|] == '=' && s[..|key|] == key
  {
    assert (key + "=")[|key|] == '=' && (key + "=")[..|key|] == key;
  }

  /** The first `=` ends the key. */
  lemma KeysAreApart(k: string, l: string, line: string)
    requires IsName(k) && IsName(l) && Owns(k, line) && Owns(l, line)
    ensures k == l
  {
    var s := if line[0] == '#' then line[1..] else line;
    assert IsNameChar(k[0]) && IsNameChar(l[0]);
    assert k + "=" <= s && l + "=" <= s by {
      assert (k + "=")[0] == k[0] && (l + "=")[0] == l[0];
      if line[0] == '#' {
        assert ("#" + k + "=")[1..] == k + "=" && ("#" + l + "=")[1..] == l + "=";
      } else {
        assert ("#" + k + "=")[0] == '#' && ("#" + l + "=")[0] == '#';
      }
    }
    KeyEndsAtSign(k, s);
    KeyEndsAtSign(l, s);
    forall i | 0 <= i < |k| ensures s[i] != '=' { assert IsNameChar(k[i]); }
    forall i | 0 <= i < |l| ensures s[i] != '=' { assert IsNameChar(l[i]); }
  }

  lemma OwnsItsAssignment(u: Update)
    ensures Owns(u.key, Assignment(u))
  {
    assert Assignment(u) == u.key + "=" + Encoded(u.value);
  }

  lemma {:induction false} ReplacedLines(lines: seq<string>, u: Update)
    ensures Replaced(lines, u).1 <==> OwnedLines(u.key, lines) != []
    ensures OwnedLines(u.key, Replaced(lines, u).0) == if Replaced(lines, u).1 then [Assignment(u)] else []
  {
    if lines != [] {
      var front, last := lines[..|lines| - 1], lines[|lines| - 1];
      ReplacedLines(front, u);
      OwnsItsAssignment(u);
      FilterOneMore(line => Owns(u.key, line), Replaced(front, u).0, last);
      FilterOneMore(line => Owns(u.key, line), Replaced(front, u).0, Assignment(u));
    }
  }

  /** After the update of a key, one line sets it, with the new value. */
  lemma UpdatedKeyHasOneLine(lines: seq<string>, u: Update)
    ensures OwnedLines(u.key, UpdateOne(lines, u)) == [Assignment(u)]
  {
    ReplacedLines(lines, u);
    OwnsItsAssignment(u);
    FilterOneMore(line => Owns(u.key, line), Replaced(lines, u).0, Assignment(u));
  }

  /** Any selection of lines that ignores the lines of the key stays as it is. */
  lemma {:induction false} OtherSelectionsStay(lines: seq<string>, u: Update, keep: string -> bool)
    requires forall line: string :: Owns(u.key, line) ==> !keep(line)
    ensures Filter(keep, Replaced(lines, u).0) == Filter(keep, lines)
    ensures Filter(keep, UpdateOne(lines, u)) == Filter(keep, lines)
  {
    OwnsItsAssignment(u);
    var line := Assignment(u);
    if lines != [] {
      var front, last := lines[..|lines| - 1], lines[|lines| - 1];
      OtherSelectionsStay(front, u, keep);
      FilterOneMore(keep, Replaced(front, u).0, last);
      FilterOneMore(keep, Replaced(front, u).0, line);
    }
    FilterOneMore(keep, Replaced(lines, u).0, line);
  }

  /** The new line stands where the first line of the key stood, and at the end if there was none. */
  lemma AssignmentTakesThePlace(before: seq<string>, line: string, after: seq<string>, u: Update)
    requires u.key + "=" <= line || "#" + u.key + "=" <= line
    requires forall other <- before :: !(u.key + "=" <= other) && !("#" + u.key + "=" <= other)
    ensures UpdateOne(before + [line] + after, u)
         == before + [u.key + "=" + Encoded(u.value)] + UnownedLines(u.key, after)
    ensures UpdateOne(before, u) == before + [u.key + "=" + Encoded(u.value)]
  {
    NoneOwned(before, u.key);
    NothingToReplace(before, u);
    FirstIsReplaced(before, line, after, u);
  }

  lemma {:induction false} NoneOwned(lines: seq<string>, key: string)
    requires forall line <- lines :: !Owns(key, line)
    ensures OwnedLines(key, lines) == []
  {
    if lines != [] {
      assert lines[|lines| - 1] in lines;
      NoneOwned(lines[..|lines| - 1], key);
    }
  }

  lemma ReplacedOneMore(front: seq<string>, last: string, u: Update)
    ensures var (done, found) := Replaced(front, u);
            Replaced(front + [last], u) ==
              if !Owns(u.key, last) then (done + [last], found)
              else if !found then (done + [Assignment(u)], true)
              else (done, true)
  {
    assert (front + [last])[..|front|] == front;
  }

  lemma {:induction false} FirstIsReplaced(before: seq<string>, line: string, after: seq<string>, u: Update)
    requires Owns(u.key, line) && OwnedLines(u.key, before) == []
    ensures Replaced(before + [line] + after, u) ==
            (before + [Assignment(u)] + UnownedLines(u.key, after), true)
  {
    if after == [] {
      NothingToReplace(before, u);
      ReplacedOneMore(before, line, u);
      assert before + [line] + after == before + [line];
      assert before + [Assignment(u)] + [] == before + [Assignment(u)];
    } else {
      var front, last := after[..|after| - 1], after[|after| - 1];
      FirstIsReplaced(before, line, front, u);
      assert before + [line] + after == (before + [line] + front) + [last];
      ReplacedOneMore(before + [line] + front, last, u);
      assert after == front + [last];
      FilterOneMore(line => !Owns(u.key, line), front, last);
      var start, kept := before + [Assignment(u)], UnownedLines(u.key, front);
      assert start + kept + [last] == start + (kept + [last]) && kept + [] == kept;
    }
  }

  lemma {:induction false} NothingToReplace(lines: seq<string>, u: Update)
    requires OwnedLines(u.key, lines) == []
    ensures Replaced(lines, u) == (lines, false)
  {
    if lines != [] {
      var front, last := lines[..|lines| - 1], lines[|lines| - 1];
      assert lines == front + [last];
      FilterOneMore(line => Owns(u.key, line), front, last);
      NothingToReplace(front, u);
    }
  }

  lemma {:induction false} SelectionsStay(lines: seq<string>, updates: seq<Update>, keep: string -> bool)
    requires forall i, line: string | 0 <= i < |updates| && Owns(updates[i].key, line) :: !keep(line)
    ensures Filter(keep, UpdateAll(lines, updates)) == Filter(keep, lines)
  {
    if updates != [] {
      var front, last := updates[..|updates| - 1], updates[|updates| - 1];
      assert forall i | 0 <= i < |front| :: front[i] == updates[i];
      SelectionsStay(lines, front, keep);
      OtherSelectionsStay(UpdateAll(lines, front), last, keep);
    }
  }

  /** After a whole list of updates, each updated key has exactly one line, with its value. */
  lemma {:induction false} EachKeyHasOneLine(lines: seq<string>, updates: seq<Update>, i: nat)
    requires Complaint(updates).None? && i < |updates|
    ensures OwnedLines(updates[i].key, UpdateAll(lines, updates)) == [Assignment(updates[i])]
  {
    var front, last := updates[..|updates| - 1], updates[|updates| - 1];
    if i == |front| {
      UpdatedKeyHasOneLine(UpdateAll(lines, front), last);
    } else {
      var u := updates[i];
      NoComplaintExactly(updates);
      EachKeyHasOneLine(lines, front, i);
      forall line: string | Owns(last.key, line) ensures !Owns(u.key, line) {
        if Owns(u.key, line) { KeysAreApart(u.key, last.key, line); }
      }
      OtherSelectionsStay(UpdateAll(lines, front), last, line => Owns(u.key, line));
    }
  }

  /** All lines that have nothing to do with an updated key are the same, in the same order. */
  lemma OtherLinesStay(lines: seq<string>, updates: seq<Update>)
    ensures OtherLines(updates, UpdateAll(lines, updates)) == OtherLines(updates, lines)
  {
    SelectionsStay(lines, updates, line => !exists i | 0 <= i < |updates| :: Owns(updates[i].key, line));
  }

  /** A key whose only line is the assignment already is left alone. */
  lemma {:induction false} UpToDate(lines: seq<string>, u: Update)
    requires OwnedLines(u.key, lines) == [Assignment(u)]
    ensures Replaced(lines, u) == (lines, true)
  {
    if lines != [] {
      var front, last := lines[..|lines| - 1], lines[|lines| - 1];
      assert lines == front + [last];
      FilterOneMore(line => Owns(u.key, line), front, last);
      ReplacedOneMore(front, last, u);
      if Owns(u.key, last) {
        assert OwnedLines(u.key, front) == [] && last == Assignment(u) by {
          assert |OwnedLines(u.key, front) + [last]| == 1;
          assert (OwnedLines(u.key, front) + [last])[0] == last;
        }
        NothingToReplace(front, u);
      } else {
        assert OwnedLines(u.key, front) + [] == OwnedLines(u.key, front);
        UpToDate(front, u);
      }
    }
  }

  lemma {:induction false} AllUpToDate(lines: seq<string>, updates: seq<Update>)
    requires forall i | 0 <= i < |updates| :: OwnedLines(updates[i].key, lines) == [Assignment(updates[i])]
    ensures UpdateAll(lines, updates) == lines
  {
    if updates != [] {
      var front, last := updates[..|updates| - 1], updates[|updates| - 1];
      assert forall i | 0 <= i < |front| :: front[i] == updates[i];
      AllUpToDate(lines, front);
      UpToDate(lines, last);
    }
  }

  predicate AllPlain(lines: seq<string>) {
    forall line <- lines :: PlainLine(line)
  }

  lemma {:induction false} EscapedIsPlain(value: string)
    requires SingleLine(value)
    ensures PlainLine(Escaped(value))
  {
    if value != "" { EscapedIsPlain(value[..|value| - 1]); }
  }

  lemma AssignmentIsPlain(u: Update)
    requires IsName(u.key) && SingleLine(u.value)
    ensures PlainLine(Assignment(u))
  {
    EscapedIsPlain(u.value);
    assert '\n' !in u.key && '\r' !in u.key by { assert !IsNameChar('\n') && !IsNameChar('\r'); }
  }

  lemma {:induction false} ReplacedIsPlain(lines: seq<string>, u: Update)
    requires AllPlain(lines) && IsName(u.key) && SingleLine(u.value)
    ensures AllPlain(Replaced(lines, u).0)
  {
    AssignmentIsPlain(u);
    if lines != [] { ReplacedIsPlain(lines[..|lines| - 1], u); }
  }

  lemma {:induction false} UpdatesArePlain(lines: seq<string>, updates: seq<Update>)
    requires AllPlain(lines) && Complaint(updates).None?
    ensures AllPlain(UpdateAll(lines, updates))
  {
    if updates != [] {
      var front, last := updates[..|updates| - 1], updates[|updates| - 1];
      NoComplaintExactly(updates);
      UpdatesArePlain(lines, front);
      AssignmentIsPlain(last);
      ReplacedIsPlain(UpdateAll(lines, front), last);
    }
  }

  /** Carrying out the same updates on the written file again writes the same file. */
  lemma SecondUpdateChangesNothing(content: string, updates: seq<Update>)
    requires '\r' !in content && updates != [] && Complaint(updates).None?
    ensures var written := FileOf(UpdateAll(Lines(content), updates));
            FileOf(UpdateAll(Lines(written), updates)) == written
  {
    var lines := UpdateAll(Lines(content), updates);
    LinesArePlain(content);
    UpdatesArePlain(Lines(content), updates);
    assert lines != [] by { EachKeyHasOneLine(Lines(content), updates, 0); }
    LinesOfFile(lines);
    forall i | 0 <= i < |updates| ensures OwnedLines(updates[i].key, lines) == [Assignment(updates[i])] {
      EachKeyHasOneLine(Lines(content), updates, i);
    }
    AllUpToDate(lines, updates);
  }

  // ---------------------------------------------------------------- reading a value back

  /** Names that dotenv accepts do not start with a digit. */
  predicate Readable(key: string) {
    key != "" && ('A' <= key[0] <= 'Z' || 'a' <= key[0] <= 'z' || key[0] == '_')
  }

  /** The length of a name at the start of a line. */
  function NameLength(s: string): (n: nat)
    ensures n <= |s|
  {
    if s == "" || !IsNameChar(s[0]) then 0 else 1 + NameLength(s[1..])
  }

  /** The entry of a line in the form that the update writes. */
  function WrittenEntry(line: string): Option<(string, string)> {
    var n := NameLength(line);
    if line[n..] != "" && line[n] == '=' && line[n + 1..] != "" && line[n + 1] == '"' && Unquoted(line[n + 2..]).Some?
    then Some((line[..n], Unquoted(line[n + 2..]).value))
    else None
  }

  /** The entry of any line; how lines in other forms are read is up to `other`. */
  function Entry(other: string -> Option<(string, string)>, line: string): Option<(string, string)> {
    var entry := if WrittenEntry(line).Some? then WrittenEntry(line) else other(line);
    if entry.Some? && Readable(entry.value.0) then entry else None
  }

  predicate Gives(other: string -> Option<(string, string)>, line: string, key: string) {
    Entry(other, line).Some? && Entry(other, line).value.0 == key && Entry(other, line).value.1 != ""
  }

  /** The first non-empty value of a key. */
  function ValueIn(other: string -> Option<(string, string)>, lines: seq<string>, key: string): Option<string> {
    if lines == [] then None
    else if Gives(other, lines[0], key) then Some(Entry(other, lines[0]).value.1)
    else ValueIn(other, lines[1..], key)
  }

  method EnvFileValue(other: string -> Option<(string, string)>, content: string, key: string) returns (value: Option<string>)
    ensures value == ValueIn(other, Lines(content), key)
  {
    var lines := Lines(content);
    assert lines[0..] == lines;
    for i := 0 to |lines|
      invariant ValueIn(other, lines, key) == ValueIn(other, lines[i..], key)
    {
      assert lines[i..][0] == lines[i] && lines[i..][1..] == lines[i + 1..];
      if Gives(other, lines[i], key) {
        return Some(Entry(other, lines[i]).value.1);
      }
    }
    return None;
  }

  lemma {:induction false} NameEnds(key: string, rest: string)
    requires (forall c <- key :: IsNameChar(c)) && (rest == "" || !IsNameChar(rest[0]))
    ensures NameLength(key + rest) == |key|
  {
    if key == "" {
      assert key + rest == rest;
    } else {
      assert (key + rest)[1..] == key[1..] + rest;
      NameEnds(key[1..], rest);
    }
  }

  /** dotenv reads what the update wrote. */
  lemma AssignmentIsRead(u: Update)
    requires IsName(u.key)
    ensures WrittenEntry(Assignment(u)) == Some((u.key, u.value))
  {
    var rest := "=" + Encoded(u.value);
    assert Assignment(u) == u.key + rest;
    NameEnds(u.key, rest);
    assert rest[0] == '=' && rest[1] == '"' && rest[2..] == Escaped(u.value) + "\"";
    assert Assignment(u)[|u.key| + 2..] == rest[2..];
    DecodingUndoesEncoding(u.value);
  }

  lemma {:induction false} ValueInConcat(other: string -> Option<(string, string)>, a: seq<string>, b: seq<string>, key: string)
    ensures ValueIn(other, a + b, key) == if ValueIn(other, a, key).Some? then ValueIn(other, a, key) else ValueIn(other, b, key)
  {
    if a == [] {
      assert a + b == b;
    } else {
      assert (a + b)[1..] == a[1..] + b;
      ValueInConcat(other, a[1..], b, key);
    }
  }

  lemma {:induction false} ValuesAreNotEmpty(other: string -> Option<(string, string)>, lines: seq<string>, key: string)
    ensures ValueIn(other, lines, key).Some? ==> Readable(key) && ValueIn(other, lines, key).value != ""
  {
    if lines != [] { ValuesAreNotEmpty(other, lines[1..], key); }
  }

  /**
   An updated key is read back exactly if its value is not empty, dotenv accepts its name, and no
   line before the written one gives the key another value in some other spelling.
   */
  lemma ReadBackExactly(other: string -> Option<(string, string)>, before: seq<string>, after: seq<string>, u: Update)
    requires IsName(u.key)
    ensures ValueIn(other, before + [Assignment(u)] + after, u.key) == Some(u.value) <==>
            && u.value != "" && Readable(u.key)
            && (ValueIn(other, before, u.key).None? || ValueIn(other, before, u.key) == Some(u.value))
  {
    AssignmentIsRead(u);
    ValueInConcat(other, before + [Assignment(u)], after, u.key);
    ValueInConcat(other, before, [Assignment(u)], u.key);
    ValuesAreNotEmpty(other, before, u.key);
    ValuesAreNotEmpty(other, after, u.key);
  }

  /** Where the first line of a key is. */
  lemma {:induction false} OwnedLineIsThere(key: string, lines: seq<string>) returns (p: nat)
    requires OwnedLines(key, lines) != []
    ensures p < |lines| && lines[p] == OwnedLines(key, lines)[0] && OwnedLines(key, lines[..p]) == []
  {
    var front, last := lines[..|lines| - 1], lines[|lines| - 1];
    if OwnedLines(key, front) != [] {
      p := OwnedLineIsThere(key, front);
      assert lines[..p] == front[..p];
    } else {
      p := |front|;
    }
  }

  /** Where the updated file sets a key, and when it is read back from there. */
  lemma UpdatedFileReadsBack(other: string -> Option<(string, string)>, content: string, updates: seq<Update>, i: nat)
      returns (p: nat)
    requires '\r' !in content && Complaint(updates).None? && i < |updates|
    ensures var lines := UpdateAll(Lines(content), updates);
            var key, value := updates[i].key, updates[i].value;
            && Lines(FileOf(lines)) == lines
            && p < |lines| && lines[p] == Assignment(updates[i])
            && (ValueIn(other, lines, key) == Some(value) <==>
                && value != "" && Readable(key)
                && (ValueIn(other, lines[..p], key).None? || ValueIn(other, lines[..p], key) == Some(value)))
  {
    var lines := UpdateAll(Lines(content), updates);
    LinesArePlain(content);
    UpdatesArePlain(Lines(content), updates);
    EachKeyHasOneLine(Lines(content), updates, i);
    p := OwnedLineIsThere(updates[i].key, lines);
    LinesOfFile(lines);
    NoComplaintExactly(updates);
    PartsOf(lines, p);
    ReadBackFrom(other, lines, lines[..p], lines[p], lines[p + 1..], updates[i]);
  }

  lemma PartsOf(lines: seq<string>, p: nat)
    requires p < |lines|
    ensures lines == lines[..p] + [lines[p]] + lines[p + 1..]
  {}

  lemma ReadBackFrom(other: string -> Option<(string, string)>, lines: seq<string>,
      before: seq<string>, line: string, after: seq<string>, u: Update)
    requires lines == before + [line] + after && line == Assignment(u) && IsName(u.key)
    ensures ValueIn(other, lines, u.key) == Some(u.value) <==>
            && u.value != "" && Readable(u.key)
            && (ValueIn(other, before, u.key).None? || ValueIn(other, before, u.key) == Some(u.value))
  {
    ReadBackExactly(other, before, after, u);
  }
}
