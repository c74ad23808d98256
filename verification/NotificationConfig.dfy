/**
 Updating the configuration of a notification channel in `beampipe-api`. Clients see secrets
 replaced by a marker and send the whole configuration back, so merging must undo the redaction.
 */
module NotificationConfig {
  import opened Json
  import opened Options
  import opened Redaction
  import opened Text

  const REDACTED: Json := Str(PLACEHOLDER)
  const HEADERS := "headers"

  type Fields = map<string, Json>

  function FieldAt(fields: Fields, key: string): Option<Json> {
    if key in fields then Some(fields[key]) else None
  }

  /** A value that is not an object has no fields. */
  function FieldsOf(value: Json): Fields {
    if value.Obj? then value.fields else map[]
  }

  function FieldsOfField(fields: Fields, key: string): Fields {
    if key in fields then FieldsOf(fields[key]) else map[]
  }

  // ---------------------------------------------------------------- what a merge means, key by key

  /** The header after a merge: the marker keeps it, null removes it, anything else replaces it. */
  function HeaderAfter(headers: Fields, patch: Fields, header: string): Option<Json> {
    if header !in patch || patch[header] == REDACTED then FieldAt(headers, header)
    else if patch[header] == Null then None
    else Some(patch[header])
  }

  function HeadersAfter(headers: Fields, patch: Fields): Fields {
    map header | header in headers.Keys + patch.Keys && HeaderAfter(headers, patch, header).Some?
      :: HeaderAfter(headers, patch, header).value
  }

  function FieldAfter(existing: Fields, patch: Fields, key: string): Option<Json> {
    if key !in patch || patch[key] == REDACTED then FieldAt(existing, key)
    else if key != HEADERS then Some(patch[key])
    else if patch[key] == Null then None
    else if patch[key].Obj? then Some(Obj(HeadersAfter(FieldsOfField(existing, key), patch[key].fields)))
    else Some(patch[key])
  }

  function FieldsAfter(existing: Fields, patch: Fields): Fields {
    map key | key in existing.Keys + patch.Keys && FieldAfter(existing, patch, key).Some?
      :: FieldAfter(existing, patch, key).value
  }

  /** The merge; a patch that is not an object replaces everything. */
  function Merged(existing: Json, patch: Json): Json {
    if patch.Obj? then Obj(FieldsAfter(FieldsOf(existing), patch.fields)) else patch
  }

  lemma FieldsAfterAt(existing: Fields, patch: Fields, key: string)
    ensures FieldAt(FieldsAfter(existing, patch), key) == FieldAfter(existing, patch, key)
  {
  }

  lemma HeadersAfterAt(headers: Fields, patch: Fields, header: string)
    ensures FieldAt(HeadersAfter(headers, patch), header) == HeaderAfter(headers, patch, header)
  {
  }

  lemma SameFields(a: Fields, b: Fields)
    requires forall key :: FieldAt(a, key) == FieldAt(b, key)
    ensures a == b
  {
    assert forall key :: key in a <==> FieldAt(a, key).Some?;
    assert forall key :: key in b <==> FieldAt(b, key).Some?;
    assert forall key | key in a :: FieldAt(a, key) == Some(a[key]);
    assert forall key | key in b :: FieldAt(b, key) == Some(b[key]);
  }

  // ---------------------------------------------------------------- the loops

  /** The loop over the headers of a patch, in any order. */
  method MergeHeaders(existing: Fields, patch: Fields) returns (headers: Fields)
    ensures headers == HeadersAfter(existing, patch)
  {
    headers := existing;
    var remaining := patch.Keys;
    while remaining != {}
      invariant remaining <= patch.Keys
      invariant forall header ::
          FieldAt(headers, header) ==
          if header in remaining then FieldAt(existing, header) else HeaderAfter(existing, patch, header)
      decreases remaining
    {
      var header :| header in remaining;
      remaining := remaining - {header};
      var value := patch[header];
      if value != REDACTED {
        if value == Null {
          headers := headers - {header};
        } else {
          headers := headers[header := value];
        }
      }
    }
    forall header ensures FieldAt(headers, header) == FieldAt(HeadersAfter(existing, patch), header) {
      HeadersAfterAt(existing, patch, header);
    }
    SameFields(headers, HeadersAfter(existing, patch));
  }

  /** The loop over the keys of a patch, in any order. */
  method MergeNotificationConfig(existing: Json, patch: Json) returns (merged: Json)
    ensures merged == Merged(existing, patch)
  {
    if !patch.Obj? {
      return patch;
    }
    var before := FieldsOf(existing);
    var out := before;
    var remaining := patch.fields.Keys;
    while remaining != {}
      invariant remaining <= patch.fields.Keys
      invariant forall key ::
          FieldAt(out, key) == if key in remaining then FieldAt(before, key) else FieldAfter(before, patch.fields, key)
      decreases remaining
    {
      var key :| key in remaining;
      assert FieldAt(out, key) == FieldAt(before, key);
      remaining := remaining - {key};
      var value := patch.fields[key];
      if value != REDACTED {
        if key == HEADERS && value == Null {
          out := out - {key};
        } else if key == HEADERS && value.Obj? {
          assert FieldsOfField(out, key) == FieldsOfField(before, key);
          var headers := MergeHeaders(FieldsOfField(out, key), value.fields);
          out := out[key := Obj(headers)];
        } else {
          out := out[key := value];
        }
      }
    }
    forall key ensures FieldAt(out, key) == FieldAt(FieldsAfter(before, patch.fields), key) {
      FieldsAfterAt(before, patch.fields, key);
    }
    SameFields(out, FieldsAfter(before, patch.fields));
    merged := Obj(out);
  }

  // ---------------------------------------------------------------- views with whole values hidden

  /** The same keys, with any of the values replaced by the marker. */
  predicate IsRedactedCopy(view: Fields, fields: Fields) {
    && view.Keys == fields.Keys
    && forall key <- view :: view[key] == fields[key] || view[key] == REDACTED
  }

  /**
   A copy with markers for any of the values, and for any of the headers. What the API shows is
   such a copy only if no text in it is redacted in parts and no nested value is.
   */
  predicate IsView(view: Fields, fields: Fields) {
    && view.Keys == fields.Keys
    && forall key <- view ::
         || view[key] == fields[key] || view[key] == REDACTED
         || (key == HEADERS && view[key].Obj? && fields[key].Obj? && IsRedactedCopy(view[key].fields, fields[key].fields))
  }

  /** Nulls where a merge takes them for removals. */
  predicate ShowsNull(view: Fields) {
    && HEADERS in view
    && (view[HEADERS] == Null
        || (view[HEADERS].Obj? && exists header <- view[HEADERS].fields :: view[HEADERS].fields[header] == Null))
  }

  lemma MergedHeadersAreBack(view: Fields, headers: Fields)
    requires IsRedactedCopy(view, headers)
    ensures HeadersAfter(headers, view) == headers <==> forall header <- view :: view[header] != Null
  {
    forall header ensures FieldAt(HeadersAfter(headers, view), header) == HeaderAfter(headers, view, header) {
      HeadersAfterAt(headers, view, header);
    }
    if header :| header in view && view[header] == Null {
      assert header !in HeadersAfter(headers, view) && header in headers;
    } else {
      forall header ensures FieldAt(HeadersAfter(headers, view), header) == FieldAt(headers, header) {
      }
      SameFields(HeadersAfter(headers, view), headers);
    }
  }

  /**
   Sending such a copy back restores the configuration, exactly if it shows no null for the headers
   as a whole or for one of them.
   */
  lemma MergingUndoesMarkers(view: Fields, fields: Fields)
    requires IsView(view, fields)
    ensures Merged(Obj(fields), Obj(view)) == Obj(fields) <==> !ShowsNull(view)
  {
    forall key ensures FieldAt(FieldsAfter(fields, view), key) == FieldAfter(fields, view, key) {
      FieldsAfterAt(fields, view, key);
    }
    if HEADERS in view && view[HEADERS].Obj? {
      assert fields[HEADERS].Obj? && IsRedactedCopy(view[HEADERS].fields, fields[HEADERS].fields);
      MergedHeadersAreBack(view[HEADERS].fields, fields[HEADERS].fields);
    }
    if ShowsNull(view) {
      assert FieldAt(FieldsAfter(fields, view), HEADERS) != FieldAt(fields, HEADERS);
    } else {
      forall key ensures FieldAt(FieldsAfter(fields, view), key) == FieldAt(fields, key) {
      }
      SameFields(FieldsAfter(fields, view), fields);
    }
  }

  lemma HeadersTwice(headers: Fields, patch: Fields)
    ensures HeadersAfter(HeadersAfter(headers, patch), patch) == HeadersAfter(headers, patch)
  {
    var once := HeadersAfter(headers, patch);
    forall header ensures FieldAt(HeadersAfter(once, patch), header) == FieldAt(once, header) {
      HeadersAfterAt(headers, patch, header);
      HeadersAfterAt(once, patch, header);
    }
    SameFields(HeadersAfter(once, patch), once);
  }

  /** The same update twice is the same as once, for all values whatever. */
  lemma MergingIsIdempotent(existing: Json, patch: Json)
    ensures Merged(Merged(existing, patch), patch) == Merged(existing, patch)
  {
    if patch.Obj? {
      var fields := FieldsOf(existing);
      var once := FieldsAfter(fields, patch.fields);
      forall key ensures FieldAt(FieldsAfter(once, patch.fields), key) == FieldAt(once, key) {
        FieldsAfterAt(fields, patch.fields, key);
        FieldsAfterAt(once, patch.fields, key);
        if key == HEADERS && key in patch.fields && patch.fields[key].Obj? {
          HeadersTwice(FieldsOfField(fields, key), patch.fields[key].fields);
        }
      }
      SameFields(FieldsAfter(once, patch.fields), once);
    }
  }

  // ---------------------------------------------------------------- the view that clients get

  /** Headers are restored unless one that is shown is null or shown otherwise than it is. */
  predicate HeadersRestored(headers: Json) {
    match headers
    case Null => false
    case Obj(fields) => forall name <- fields :: IsSecretKey(name) || (fields[name] != Null && Open(fields[name]))
    case _ => Open(headers)
  }

  predicate FieldRestored(key: string, value: Json) {
    || IsSecretKey(key)
    || (if key == HEADERS then HeadersRestored(value) else Open(value))
  }

  /** What a configuration must be like to survive being shown and sent back. */
  predicate Restored(config: Json) {
    match config
    case Obj(fields) => forall key <- fields :: FieldRestored(key, fields[key])
    case _ => Open(config)
  }

  lemma HeadersAreNotSecret()
    ensures !IsSecretKey(HEADERS)
  {
    forall name <- SECRET_NAMES ensures !Contains(LowerAscii(HEADERS), name) {
      NotInHeaders(name);
    }
  }

  /** Every secret name has a character, or a length, that the word does not have. */
  lemma NotInHeaders(name: string)
    requires name in SECRET_NAMES
    ensures !Contains(LowerAscii(HEADERS), name)
  {
    var lower := LowerAscii(HEADERS);
    assert lower == "headers";
    var k: nat :| k < |name| && name[k] !in "headers";
    forall i: nat ensures !OccursAt(lower, name, i) {
      if i + |name| <= |lower| { assert lower[i + k] in "headers"; }
    }
  }

  /** One header, after the view was sent back. */
  lemma HeaderComesBack(headers: Fields, name: string)
    requires name in headers
    ensures HeaderAfter(headers, RedactedValue(Obj(headers)).fields, name) == Some(headers[name]) <==>
            IsSecretKey(name) || (headers[name] != Null && Open(headers[name]))
  {
    assert RedactedValue(Obj(headers)).fields[name] == RedactedField(name, headers[name]);
    ShownAsItIsExactly(headers[name]);
    if RedactedValue(headers[name]) == REDACTED { PlaceholderIsItself(headers[name]); }
  }

  lemma HeadersComeBack(headers: Fields)
    ensures HeadersAfter(headers, RedactedValue(Obj(headers)).fields) == headers <==> HeadersRestored(Obj(headers))
  {
    var view := RedactedValue(Obj(headers)).fields;
    var after := HeadersAfter(headers, view);
    forall name ensures FieldAt(after, name) == HeaderAfter(headers, view, name) {
      HeadersAfterAt(headers, view, name);
    }
    forall name <- headers
      ensures FieldAt(after, name) == Some(headers[name]) <==> IsSecretKey(name) || (headers[name] != Null && Open(headers[name]))
    {
      HeaderComesBack(headers, name);
    }
    if HeadersRestored(Obj(headers)) {
      forall name ensures FieldAt(after, name) == FieldAt(headers, name) {}
      SameFields(after, headers);
    } else {
      var name :| name in headers && !(IsSecretKey(name) || (headers[name] != Null && Open(headers[name])));
      assert FieldAt(after, name) != FieldAt(headers, name);
    }
  }

  /** One field, after the view was sent back. */
  lemma FieldComesBack(fields: Fields, key: string)
    requires key in fields
    ensures FieldAfter(fields, RedactedValue(Obj(fields)).fields, key) == Some(fields[key]) <==> FieldRestored(key, fields[key])
  {
    var value := fields[key];
    assert RedactedValue(Obj(fields)).fields[key] == RedactedField(key, value);
    ShownAsItIsExactly(value);
    HeadersAreNotSecret();
    if !IsSecretKey(key) {
      if RedactedValue(value) == REDACTED { PlaceholderIsItself(value); }
      if key == HEADERS && value.Obj? { HeadersComeBack(value.fields); }
    }
  }

  /**
   Sending back what the API shows restores a configuration exactly if every text and every nested
   value outside secret names is shown as it is, and no header that is shown is null.
   */
  lemma MergingUndoesRedaction(config: Json)
    ensures Merged(config, RedactedValue(config)) == config <==> Restored(config)
  {
    match config
    case Obj(fields) =>
      var view := RedactedValue(config).fields;
      var after := FieldsAfter(fields, view);
      forall key ensures FieldAt(after, key) == FieldAfter(fields, view, key) {
        FieldsAfterAt(fields, view, key);
      }
      forall key <- fields ensures FieldAt(after, key) == Some(fields[key]) <==> FieldRestored(key, fields[key]) {
        FieldComesBack(fields, key);
      }
      if Restored(config) {
        forall key ensures FieldAt(after, key) == FieldAt(fields, key) {}
        SameFields(after, fields);
      } else {
        var key :| key in fields && !FieldRestored(key, fields[key]);
        assert FieldAt(after, key) != FieldAt(fields, key);
      }
    case _ => ShownAsItIsExactly(config);
  }

  // ---------------------------------------------------------------- updates

  /** Keys that an update does not mention, or sends back hidden, stay as they are. */
  lemma OthersStay(fields: Fields, patch: Fields, key: string)
    requires key !in patch || patch[key] == Str("[REDACTED]")
    ensures var after := Merged(Obj(fields), Obj(patch)).fields;
            (key in after <==> key in fields) && (key in after ==> after[key] == fields[key])
  {
    FieldsAfterAt(fields, patch, key);
    assert FieldAt(FieldsAfter(fields, patch), key) == FieldAt(fields, key);
  }

  /** Headers that are sent as null are removed, and anything that is no object takes their place. */
  lemma HeadersAsAWhole(fields: Fields, patch: Fields)
    requires "headers" in patch && !patch["headers"].Obj? && patch["headers"] != Str("[REDACTED]")
    ensures var after := Merged(Obj(fields), Obj(patch)).fields;
            if patch["headers"] == Null then "headers" !in after
            else "headers" in after && after["headers"] == patch["headers"]
  {
    FieldsAfterAt(fields, patch, HEADERS);
  }

  /** What is no object counts as empty if it is stored, and replaces everything if it is sent. */
  lemma OtherShapes(existing: Json, patch: Json)
    ensures !patch.Obj? ==> Merged(existing, patch) == patch
    ensures !existing.Obj? ==> Merged(existing, patch) == Merged(Obj(map[]), patch)
  {
  }

  /** New values, none of which is the marker. */
  predicate AreNew(values: Fields) {
    forall key <- values :: values[key] != Str("[REDACTED]")
  }

  /** An update of the view, key by key. */
  lemma UpdatedField(fields: Fields, values: Fields, key: string)
    requires AreNew(values) && HEADERS !in values
    ensures var patch := RedactedValue(Obj(fields)).fields + values;
      if key in values then FieldAfter(fields, patch, key) == Some(values[key])
      else if key in fields then FieldAfter(fields, patch, key) == Some(fields[key]) <==> FieldRestored(key, fields[key])
      else FieldAfter(fields, patch, key) == None
  {
    if key in fields { FieldComesBack(fields, key); }
  }

  /**
   An update arrives: sending back what the API shows, with new values for any old or new keys, gives
   the configuration with these values, exactly if each of the other fields survives being sent back.
   */
  lemma UpdateArrivesExactly(fields: Fields, values: Fields)
    requires AreNew(values) && "headers" !in values
    ensures Merged(Obj(fields), Obj(RedactedValue(Obj(fields)).fields + values)) == Obj(fields + values) <==>
            forall key <- fields :: key in values || FieldRestored(key, fields[key])
  {
    var patch := RedactedValue(Obj(fields)).fields + values;
    var after, wanted := FieldsAfter(fields, patch), fields + values;
    forall key ensures FieldAt(after, key) == FieldAfter(fields, patch, key) { FieldsAfterAt(fields, patch, key); }
    if forall key <- fields :: key in values || FieldRestored(key, fields[key]) {
      forall key ensures FieldAt(after, key) == FieldAt(wanted, key) { UpdatedField(fields, values, key); }
      SameFields(after, wanted);
    } else {
      var key :| key in fields && key !in values && !FieldRestored(key, fields[key]);
      UpdatedField(fields, values, key);
      assert FieldAt(after, key) != FieldAt(wanted, key);
    }
  }

  /** The headers with new values, without those that are set to null. */
  function WithHeaders(headers: Fields, values: Fields): Fields {
    map name | name in headers.Keys + values.Keys && (name in values ==> values[name] != Null)
      :: if name in values then values[name] else headers[name]
  }

  predicate HeaderRestored(name: string, value: Json) {
    IsSecretKey(name) || (value != Null && Open(value))
  }

  lemma UpdatedHeader(headers: Fields, values: Fields, name: string)
    requires AreNew(values)
    ensures var patch := RedactedValue(Obj(headers)).fields + values;
      if name in values then
        HeaderAfter(headers, patch, name) == if values[name] == Null then None else Some(values[name])
      else if name in headers then
        HeaderAfter(headers, patch, name) == Some(headers[name]) <==> HeaderRestored(name, headers[name])
      else HeaderAfter(headers, patch, name) == None
  {
    if name in headers { HeaderComesBack(headers, name); }
  }

  lemma HeadersArrive(headers: Fields, values: Fields)
    requires AreNew(values)
    ensures HeadersAfter(headers, RedactedValue(Obj(headers)).fields + values) == WithHeaders(headers, values) <==>
            forall name <- headers :: name in values || HeaderRestored(name, headers[name])
  {
    var patch := RedactedValue(Obj(headers)).fields + values;
    var after, wanted := HeadersAfter(headers, patch), WithHeaders(headers, values);
    forall name ensures FieldAt(after, name) == HeaderAfter(headers, patch, name) { HeadersAfterAt(headers, patch, name); }
    if forall name <- headers :: name in values || HeaderRestored(name, headers[name]) {
      forall name ensures FieldAt(after, name) == FieldAt(wanted, name) { UpdatedHeader(headers, values, name); }
      SameFields(after, wanted);
    } else {
      var name :| name in headers && name !in values && !HeaderRestored(name, headers[name]);
      UpdatedHeader(headers, values, name);
      assert FieldAt(after, name) != FieldAt(wanted, name);
    }
  }

  /**
   The same inside the headers, where null removes one: sending back what the API shows, with new
   values for some headers, changes those headers and nothing else, exactly if all other headers and
   fields survive being sent back.
   */
  lemma HeaderUpdateArrivesExactly(fields: Fields, headers: Fields, values: Fields)
    requires AreNew(values)
    requires headers == if "headers" in fields && fields["headers"].Obj? then fields["headers"].fields else map[]
    ensures var shown := RedactedValue(Obj(headers)).fields + values;
      Merged(Obj(fields), Obj(RedactedValue(Obj(fields)).fields["headers" := Obj(shown)]))
      == Obj(fields["headers" := Obj(WithHeaders(headers, values))]) <==>
        && (forall key <- fields :: key == "headers" || FieldRestored(key, fields[key]))
        && (forall name <- headers :: name in values || HeaderRestored(name, headers[name]))
  {
    var view, shown := RedactedValue(Obj(fields)).fields, RedactedValue(Obj(headers)).fields + values;
    var patch := view[HEADERS := Obj(shown)];
    var after, wanted := FieldsAfter(fields, patch), fields[HEADERS := Obj(WithHeaders(headers, values))];
    HeadersArrive(headers, values);
    forall key ensures FieldAt(after, key) == FieldAfter(fields, patch, key) { FieldsAfterAt(fields, patch, key); }
    forall key | key != HEADERS
      ensures FieldAt(after, key) == FieldAt(wanted, key) <==> key in fields ==> FieldRestored(key, fields[key])
    {
      if key in fields { FieldComesBack(fields, key); }
    }
    assert FieldAt(after, HEADERS) == Some(Obj(HeadersAfter(headers, shown)));
    assert FieldAt(wanted, HEADERS) == Some(Obj(WithHeaders(headers, values)));
    AgreeExactly(fields, after, wanted);
  }

  /** If other fields agree where they are restored, all agree exactly if all of them are and the headers agree. */
  lemma AgreeExactly(fields: Fields, after: Fields, wanted: Fields)
    requires forall key | key != HEADERS ::
      FieldAt(after, key) == FieldAt(wanted, key) <==> key in fields ==> FieldRestored(key, fields[key])
    ensures after == wanted <==>
      && FieldAt(after, HEADERS) == FieldAt(wanted, HEADERS)
      && forall key <- fields :: key == HEADERS || FieldRestored(key, fields[key])
  {
    if FieldAt(after, HEADERS) == FieldAt(wanted, HEADERS) {
      if key :| key in fields && key != HEADERS && !FieldRestored(key, fields[key]) {
        assert FieldAt(after, key) != FieldAt(wanted, key);
      } else {
        SameFields(after, wanted);
      }
    }
  }

  /** A nested secret is lost: a merge puts the marker in its place. */
  lemma NestedSecretIsLost(secret: Json)
    ensures var config := Obj(map["auth" := Obj(map["token" := secret])]);
            Merged(config, RedactedValue(config)) == Obj(map["auth" := Obj(map["token" := REDACTED])])
  {
    var inner := map["token" := secret];
    var fields := map["auth" := Obj(inner)];
    NotSecret("auth");
    TokenIsSecret();
    assert RedactedValue(Obj(inner)).fields == map["token" := REDACTED];
    assert RedactedValue(Obj(fields)).fields == map["auth" := Obj(map["token" := REDACTED])];
    assert "auth" != HEADERS by { assert |"auth"| != |HEADERS|; }
    FieldsAfterAt(fields, RedactedValue(Obj(fields)).fields, "auth");
    assert FieldsAfter(fields, RedactedValue(Obj(fields)).fields) == map["auth" := Obj(map["token" := REDACTED])];
  }

  lemma TokenIsSecret()
    ensures IsSecretKey("token")
  {
    assert LowerAscii("token") == "token";
    assert OccursAt(LowerAscii("token"), "token", 0);
    assert Contains(LowerAscii("token"), SECRET_NAMES[3]) && SECRET_NAMES[3] in SECRET_NAMES;
  }

  /** Names shorter than all secret ones are not secret. */
  lemma NotSecret(key: string)
    requires |key| < 5
    ensures !IsSecretKey(key)
  {
    assert forall name <- SECRET_NAMES :: |name| >= 5;
  }

  /**
   A token inside a text is lost: for any link without delimiters in front of it, under any name
   that is not secret, a merge stores the link as it was shown.
   */
  lemma TokenInLinkIsLost(key: string, link: string, token: string)
    requires !IsSecretKey(key) && key != HEADERS
    requires OnePiece(link) && '=' !in link && OnePiece(token) && '=' !in token && token != PLACEHOLDER
    ensures var config := Obj(map[key := Str(link + "token=" + token)]);
            Merged(config, RedactedValue(config)) == Obj(map[key := Str(link + "token=" + PLACEHOLDER)])
  {
    var text := link + "token=" + token;
    var shown := Str(link + "token=" + PLACEHOLDER);
    var fields := map[key := Str(text)];
    TokenIsCut(link, token);
    var view := RedactedValue(Obj(fields)).fields;
    assert view[key] == RedactedField(key, fields[key]) == RedactedValue(fields[key]) == shown;
    assert view == map[key := shown];
    FieldsAfterAt(fields, map[key := shown], key);
    assert |shown.s| != |PLACEHOLDER|;
    assert FieldsAfter(fields, map[key := shown]) == map[key := shown];
  }

  lemma TokenIsCut(link: string, token: string)
    requires OnePiece(link) && '=' !in link && OnePiece(token) && '=' !in token && token != PLACEHOLDER
    ensures RedactedText(link + "token=" + token) == link + "token=" + PLACEHOLDER
  {
    assert LowerAscii("token=") == "token=";
    MarkersMark("token=");
    MarkersEndInSign("token=");
    SecretIsCut(link, "token=", token);
  }
}
