/**
 Rewriting the OpenAPI document of `beampipe-api`: references to alias schemas are turned to the
 canonical ones, the aliases are removed, and all objects are sorted by key.

 The document is ordered, as it is written to a file; its meaning is the JSON value without order.
 */
module OpenApi {
  import opened Json
  import opened Options
  import opened Text
  import CounterKeys

  // ---------------------------------------------------------------- references and the rewriting, on values

  const PREFIX := "#/components/schemas/"
  const REF := "$ref"
  const COMPONENTS := "components"
  const SCHEMAS := "schemas"

  /** Alias names and the canonical names they stand for. */
  type Aliases = map<string, string>

  const SCHEMA_REFERENCE_ALIASES: Aliases := map["ValidationDiagnostic" := "Diagnostic"]

  /** No canonical name is an alias, and names are single path segments. */
  ghost predicate Sound(aliases: Aliases) {
    forall name <- aliases :: aliases[name] !in aliases && '/' !in name && '/' !in aliases[name]
  }

  lemma TableIsSound()
    ensures Sound(SCHEMA_REFERENCE_ALIASES)
  {
    assert "Diagnostic" != "ValidationDiagnostic" by { assert |"Diagnostic"| != |"ValidationDiagnostic"|; }
  }

  function Retargeted(aliases: Aliases, reference: string): string {
    if PREFIX <= reference && reference[|PREFIX|..] in aliases
    then PREFIX + aliases[reference[|PREFIX|..]]
    else reference
  }

  /** The value of one field; only strings under `$ref` are references. */
  function RewrittenField(aliases: Aliases, key: string, value: Json): Json
    decreases value, 1
  {
    if key == REF && value.Str? then Str(Retargeted(aliases, value.s)) else Rewritten(aliases, value)
  }

  function Rewritten(aliases: Aliases, value: Json): Json
    decreases value, 0
  {
    match value
    case Obj(fields) => Obj(map key | key in fields :: RewrittenField(aliases, key, fields[key]))
    case Arr(items) => Arr(seq(|items|, i requires 0 <= i < |items| => Rewritten(aliases, items[i])))
    case _ => value
  }

  function SchemasOf(value: Json): Option<map<string, Json>> {
    if value.Obj? && COMPONENTS in value.fields && value.fields[COMPONENTS].Obj?
       && SCHEMAS in value.fields[COMPONENTS].fields && value.fields[COMPONENTS].fields[SCHEMAS].Obj?
    then Some(value.fields[COMPONENTS].fields[SCHEMAS].fields)
    else None
  }

  function WithSchemas(value: Json, schemas: map<string, Json>): Json
    requires SchemasOf(value).Some?
  {
    Obj(value.fields[COMPONENTS := Obj(value.fields[COMPONENTS].fields[SCHEMAS := Obj(schemas)])])
  }

  function Pruned(aliases: Aliases, value: Json): Json {
    if SchemasOf(value).Some? then WithSchemas(value, SchemasOf(value).value - aliases.Keys) else value
  }

  /** What normalising the schema references means. */
  function Normalized(aliases: Aliases, value: Json): Json {
    Pruned(aliases, Rewritten(aliases, value))
  }

  // ---------------------------------------------------------------- no alias is left

  /** Somewhere in the value, `$ref` is this reference. */
  ghost predicate Refers(value: Json, reference: string) {
    match value
    case Obj(fields) =>
      || (REF in fields && fields[REF] == Str(reference))
      || exists key <- fields :: Refers(fields[key], reference)
    case Arr(items) => exists i | 0 <= i < |items| :: Refers(items[i], reference)
    case _ => false
  }

  /** What the program's table does, wherever a schema refers to its one alias. */
  lemma DiagnosticsAreRenamed(fields: map<string, Json>)
    requires "$ref" in fields && fields["$ref"] == Str("#/components/schemas/ValidationDiagnostic")
    ensures var after := Rewritten(SCHEMA_REFERENCE_ALIASES, Obj(fields));
            after.Obj? && "$ref" in after.fields && after.fields["$ref"] == Str("#/components/schemas/Diagnostic")
  {
    var reference, prefix := "#/components/schemas/ValidationDiagnostic", "#/components/schemas/";
    assert reference == prefix + "ValidationDiagnostic" && prefix + "Diagnostic" == "#/components/schemas/Diagnostic";
    assert reference[|prefix|..] == "ValidationDiagnostic";
    assert Retargeted(SCHEMA_REFERENCE_ALIASES, reference) == "#/components/schemas/Diagnostic";
    FieldIsRewritten(SCHEMA_REFERENCE_ALIASES, Obj(fields), "$ref");
  }

  lemma FieldIsRewritten(aliases: Aliases, value: Json, key: string)
    requires value.Obj?
    ensures key in Rewritten(aliases, value).fields <==> key in value.fields
    ensures key in value.fields ==>
              Rewritten(aliases, value).fields[key] == RewrittenField(aliases, key, value.fields[key])
  {
  }

  /** The references afterwards are the retargeted ones, no more and no less. */
  lemma {:induction false} RewrittenRefersBack(aliases: Aliases, value: Json, reference: string) returns (before: string)
    requires Refers(Rewritten(aliases, value), reference)
    ensures Refers(value, before) && Retargeted(aliases, before) == reference
  {
    match value
    case Obj(fields) =>
      var after := Rewritten(aliases, value).fields;
      FieldIsRewritten(aliases, value, REF);
      if REF in after && after[REF] == Str(reference) {
        before := fields[REF].s;
      } else {
        var key :| key in after && Refers(after[key], reference);
        FieldIsRewritten(aliases, value, key);
        before := RewrittenRefersBack(aliases, fields[key], reference);
      }
    case Arr(items) =>
      var after := Rewritten(aliases, value).items;
      var i :| 0 <= i < |after| && Refers(after[i], reference);
      before := RewrittenRefersBack(aliases, items[i], reference);
  }

  lemma {:induction false} RewrittenRefers(aliases: Aliases, value: Json, before: string)
    requires Refers(value, before)
    ensures Refers(Rewritten(aliases, value), Retargeted(aliases, before))
  {
    match value
    case Obj(fields) =>
      var after := Rewritten(aliases, value).fields;
      FieldIsRewritten(aliases, value, REF);
      if REF in fields && fields[REF] == Str(before) {
        assert after[REF] == Str(Retargeted(aliases, before));
      } else {
        var key :| key in fields && Refers(fields[key], before);
        FieldIsRewritten(aliases, value, key);
        RewrittenRefers(aliases, fields[key], before);
        assert Refers(after[key], Retargeted(aliases, before));
      }
    case Arr(items) =>
      var after := Rewritten(aliases, value).items;
      var i :| 0 <= i < |items| && Refers(items[i], before);
      RewrittenRefers(aliases, items[i], before);
      assert Refers(after[i], Retargeted(aliases, before));
  }

  lemma RetargetedIsNoAlias(aliases: Aliases, reference: string, name: string)
    requires Sound(aliases) && name in aliases
    ensures Retargeted(aliases, reference) != PREFIX + name
  {
    assert (PREFIX + name)[|PREFIX|..] == name;
    if PREFIX <= reference && reference[|PREFIX|..] in aliases {
      var canonical := aliases[reference[|PREFIX|..]];
      assert (PREFIX + canonical)[|PREFIX|..] == canonical;
    }
  }

  lemma PruningAddsNoReference(aliases: Aliases, value: Json, reference: string)
    requires Refers(Pruned(aliases, value), reference)
    ensures Refers(value, reference)
  {
    if SchemasOf(value).Some? {
      var top := value.fields;
      var components := top[COMPONENTS].fields;
      var schemas := components[SCHEMAS].fields;
      var after := Pruned(aliases, value).fields;
      if !(REF in after && after[REF] == Str(reference)) {
        var key :| key in after && Refers(after[key], reference);
        if key == COMPONENTS {
          var components' := after[COMPONENTS].fields;
          if REF in components' && components'[REF] == Str(reference) {
            assert Refers(top[COMPONENTS], reference);
          } else {
            var key' :| key' in components' && Refers(components'[key'], reference);
            assert Refers(components[key'], reference) by {
              if key' == SCHEMAS { FewerFieldsFewerReferences(schemas, schemas - aliases.Keys, reference); }
            }
            assert Refers(top[COMPONENTS], reference);
          }
        } else {
          assert Refers(top[key], reference);
        }
      }
    }
  }

  lemma FewerFieldsFewerReferences(fields: map<string, Json>, fewer: map<string, Json>, reference: string)
    requires forall key <- fewer :: key in fields && fields[key] == fewer[key]
    requires Refers(Obj(fewer), reference)
    ensures Refers(Obj(fields), reference)
  {
  }

  /** No reference to an alias is left, and the aliases are gone. */
  lemma NoAliasIsLeft(aliases: Aliases, value: Json, name: string)
    requires Sound(aliases) && name in aliases
    ensures !Refers(Normalized(aliases, value), PREFIX + name)
    ensures SchemasOf(Normalized(aliases, value)).Some? ==> name !in SchemasOf(Normalized(aliases, value)).value
  {
    if Refers(Normalized(aliases, value), PREFIX + name) {
      PruningAddsNoReference(aliases, Rewritten(aliases, value), PREFIX + name);
      var before := RewrittenRefersBack(aliases, value, PREFIX + name);
      RetargetedIsNoAlias(aliases, before, name);
    }
  }

  // ---------------------------------------------------------------- what references resolve to

  /** The index that a path segment stands for in an array. */
  function IndexOf(token: string): Option<nat> {
    if token != "" && CounterKeys.AllDigits(token) && (|token| == 1 || token[0] != '0')
    then Some(CounterKeys.DecimalValue(token))
    else None
  }

  function Child(value: Json, token: string): Option<Json> {
    match value
    case Obj(fields) => if token in fields then Some(fields[token]) else None
    case Arr(items) =>
      if IndexOf(token).Some? && IndexOf(token).value < |items| then Some(items[IndexOf(token).value]) else None
    case _ => None
  }

  function At(value: Json, path: seq<string>): Option<Json>
    decreases |path|
  {
    if path == [] then Some(value)
    else if Child(value, path[0]).None? then None
    else At(Child(value, path[0]).value, path[1..])
  }

  /** The path of a reference into the document, if it is one. */
  function PathOf(reference: string): Option<seq<string>> {
    if "#/" <= reference then Some(Split(reference[2..], '/')) else None
  }

  predicate Resolves(value: Json, reference: string) {
    PathOf(reference).Some? && At(value, PathOf(reference).value).Some?
  }

  /** A path to an alias, or to something inside one. */
  predicate ThroughAlias(aliases: Aliases, path: seq<string>) {
    |path| >= 3 && path[0] == COMPONENTS && path[1] == SCHEMAS && path[2] in aliases
  }

  /** What stands at the end of a path after rewriting. */
  function RewrittenAt(aliases: Aliases, path: seq<string>, value: Option<Json>): Option<Json> {
    if value.None? then None
    else if path != [] && path[|path| - 1] == REF then Some(RewrittenField(aliases, REF, value.value))
    else Some(Rewritten(aliases, value.value))
  }

  /** Rewriting changes no path, and at the end of a path only references. */
  lemma {:induction false} RewritingKeepsPaths(aliases: Aliases, value: Json, path: seq<string>)
    ensures At(Rewritten(aliases, value), path) == RewrittenAt(aliases, path, At(value, path))
    decreases |path|
  {
    if path != [] && Child(value, path[0]).Some? {
      var token, child := path[0], Child(value, path[0]).value;
      if value.Obj? && token == REF && child.Str? {
        if |path| > 1 { assert Child(child, path[1..][0]).None?; }
      } else {
        RewritingKeepsPaths(aliases, child, path[1..]);
        if value.Arr? { assert token != REF by { assert IndexOf(REF).None?; } }
      }
    }
  }

  /** Removing the aliases changes nothing but paths through them and the tables that held them. */
  lemma PruningKeepsPaths(aliases: Aliases, value: Json, path: seq<string>)
    ensures ThroughAlias(aliases, path) && SchemasOf(value).Some? ==> At(Pruned(aliases, value), path).None?
    ensures !ThroughAlias(aliases, path) ==> (At(Pruned(aliases, value), path).Some? <==> At(value, path).Some?)
    ensures !ThroughAlias(aliases, path) && !(path <= [COMPONENTS, SCHEMAS]) ==> At(Pruned(aliases, value), path) == At(value, path)
  {
    if SchemasOf(value).Some? && path != [] && path[0] == COMPONENTS && |path| > 1 && path[1] == SCHEMAS {
      var rest := path[2..];
      assert path[1..][0] == SCHEMAS && path[1..][1..] == rest;
      var schemas := SchemasOf(value).value;
      assert At(value, path) == At(Obj(schemas), rest);
      assert At(Pruned(aliases, value), path) == At(Obj(schemas - aliases.Keys), rest);
      if rest == [] { assert path == [COMPONENTS, SCHEMAS]; } else { assert rest[0] == path[2]; }
    } else if SchemasOf(value).Some? && path == [COMPONENTS] {
    } else if SchemasOf(value).Some? && path != [] && path[0] == COMPONENTS {
      assert path[1..][0] == path[1];
    }
  }

  /** Every path that avoids the aliases is still there; what is no reference and holds none is unchanged. */
  lemma NormalizingKeepsPaths(aliases: Aliases, value: Json, path: seq<string>)
    requires !ThroughAlias(aliases, path)
    ensures At(Normalized(aliases, value), path).Some? <==> At(value, path).Some?
    ensures !(path <= [COMPONENTS, SCHEMAS]) ==>
              At(Normalized(aliases, value), path) == RewrittenAt(aliases, path, At(value, path))
  {
    RewritingKeepsPaths(aliases, value, path);
    PruningKeepsPaths(aliases, Rewritten(aliases, value), path);
  }

  lemma SplitThree(a: string, b: string, c: string)
    requires '/' !in a && '/' !in b && '/' !in c
    ensures Split(a + ['/'] + (b + ['/'] + c), '/') == [a, b, c]
  {
    SplitFirst(a, '/', b + ['/'] + c);
    SplitFirst(b, '/', c);
    SplitFirst(c, '/', "");
    assert [a] + ([b] + [c]) == [a, b, c];
  }

  lemma JoinThree(a: string, b: string, c: string)
    ensures Join([a, b, c], ['/']) == a + ['/'] + (b + ['/'] + c)
  {
    assert [a, b, c][1..] == [b, c] && [b, c][1..] == [c];
    assert Join([c], ['/']) == c;
    assert Join([b, c], ['/']) == b + ['/'] + c;
  }

  lemma PrefixParts(name: string)
    ensures PREFIX + name == "#/" + (COMPONENTS + ['/'] + (SCHEMAS + ['/'] + name))
  {
    assert PREFIX == "#/" + (COMPONENTS + ['/'] + (SCHEMAS + ['/']));
  }

  lemma AfterHash(text: string)
    ensures "#/" <= "#/" + text && ("#/" + text)[2..] == text
  {
  }

  lemma PathOfSchema(name: string)
    requires '/' !in name
    ensures PathOf(PREFIX + name) == Some([COMPONENTS, SCHEMAS, name])
  {
    PrefixParts(name);
    AfterHash(COMPONENTS + ['/'] + (SCHEMAS + ['/'] + name));
    SplitThree(COMPONENTS, SCHEMAS, name);
  }

  lemma SchemaOfPath(reference: string, name: string)
    requires PathOf(reference) == Some([COMPONENTS, SCHEMAS, name])
    ensures PREFIX <= reference && reference[|PREFIX|..] == name
  {
    JoinUndoesSplit(reference[2..], '/');
    JoinThree(COMPONENTS, SCHEMAS, name);
    PrefixParts(name);
    assert reference == "#/" + reference[2..];
  }

  /** Every alias is listed together with its canonical schema. */
  predicate CanonicalsExist(aliases: Aliases, value: Json) {
    SchemasOf(value).Some? && forall name <- aliases :: aliases[name] in SchemasOf(value).value
  }

  /** A reference to something inside an alias: not to the alias as a whole. */
  predicate InsideAlias(aliases: Aliases, reference: string) {
    PathOf(reference).Some? && ThroughAlias(aliases, PathOf(reference).value) && |PathOf(reference).value| > 3
  }

  /**
   A reference that resolved still does, after retargeting, exactly if it did not point inside an
   alias.
   */
  lemma ReferencesStillResolve(aliases: Aliases, value: Json, reference: string)
    requires Sound(aliases) && CanonicalsExist(aliases, value) && Resolves(value, reference)
    ensures Resolves(Normalized(aliases, value), Retargeted(aliases, reference)) <==> !InsideAlias(aliases, reference)
  {
    var path := PathOf(reference).value;
    if PREFIX <= reference && reference[|PREFIX|..] in aliases {
      var name := reference[|PREFIX|..];
      assert reference == PREFIX + name;
      PathOfSchema(name);
      PathOfSchema(aliases[name]);
      var schemas := SchemasOf(value).value;
      var canonical := [COMPONENTS, SCHEMAS, aliases[name]];
      SchemaIsThere(value, aliases[name]);
      NormalizingKeepsPaths(aliases, value, canonical);
    } else if ThroughAlias(aliases, path) {
      if |path| == 3 {
        assert path == [COMPONENTS, SCHEMAS, path[2]];
        SchemaOfPath(reference, path[2]);
      }
      RewrittenHasSchemas(aliases, value);
      PruningKeepsPaths(aliases, Rewritten(aliases, value), path);
    } else {
      NormalizingKeepsPaths(aliases, value, path);
    }
  }

  lemma OneStep(value: Json, token: string, rest: seq<string>)
    ensures At(value, [token] + rest) == if Child(value, token).None? then None else At(Child(value, token).value, rest)
  {
    assert ([token] + rest)[1..] == rest;
  }

  lemma SchemaIsThere(value: Json, name: string)
    requires SchemasOf(value).Some?
    ensures At(value, [COMPONENTS, SCHEMAS, name]).Some? <==> name in SchemasOf(value).value
  {
    assert [COMPONENTS, SCHEMAS, name] == [COMPONENTS] + ([SCHEMAS] + ([name] + []));
    var components := value.fields[COMPONENTS];
    OneStep(value, COMPONENTS, [SCHEMAS] + ([name] + []));
    OneStep(components, SCHEMAS, [name] + []);
    OneStep(components.fields[SCHEMAS], name, []);
  }

  lemma RewrittenHasSchemas(aliases: Aliases, value: Json)
    ensures SchemasOf(Rewritten(aliases, value)).Some? <==> SchemasOf(value).Some?
  {
    assert COMPONENTS != REF && SCHEMAS != REF by { assert |COMPONENTS| != |REF| && |SCHEMAS| != |REF|; }
    if value.Obj? {
      FieldIsRewritten(aliases, value, COMPONENTS);
      if COMPONENTS in value.fields && value.fields[COMPONENTS].Obj? {
        FieldIsRewritten(aliases, value.fields[COMPONENTS], SCHEMAS);
      }
    }
  }

  // ---------------------------------------------------------------- doing it twice

  ghost predicate FreeOfAliases(aliases: Aliases, value: Json) {
    forall name <- aliases :: !Refers(value, PREFIX + name)
  }

  lemma PrefixAndRest(reference: string)
    requires PREFIX <= reference
    ensures reference == PREFIX + reference[|PREFIX|..]
  {
  }

  lemma {:induction false} NothingToRewrite(aliases: Aliases, value: Json)
    requires FreeOfAliases(aliases, value)
    ensures Rewritten(aliases, value) == value
  {
    match value
    case Obj(fields) =>
      forall key | key in fields ensures RewrittenField(aliases, key, fields[key]) == fields[key] {
        if key == REF && fields[key].Str? {
          var reference := fields[key].s;
          assert Refers(value, reference);
          if PREFIX <= reference { PrefixAndRest(reference); }
        } else {
          forall name <- aliases ensures !Refers(fields[key], PREFIX + name) {
            assert !Refers(value, PREFIX + name);
          }
          NothingToRewrite(aliases, fields[key]);
        }
      }
      assert Rewritten(aliases, value).fields == fields;
    case Arr(items) =>
      forall i | 0 <= i < |items| ensures Rewritten(aliases, items[i]) == items[i] {
        forall name <- aliases ensures !Refers(items[i], PREFIX + name) {
          assert !Refers(value, PREFIX + name);
        }
        NothingToRewrite(aliases, items[i]);
      }
      assert Rewritten(aliases, value).items == items;
    case _ =>
  }

  lemma NormalizingIsIdempotent(aliases: Aliases, value: Json)
    requires Sound(aliases)
    ensures Normalized(aliases, Normalized(aliases, value)) == Normalized(aliases, value)
  {
    var once := Normalized(aliases, value);
    forall name <- aliases ensures !Refers(once, PREFIX + name) {
      NoAliasIsLeft(aliases, value, name);
    }
    NothingToRewrite(aliases, once);
    if SchemasOf(once).Some? {
      var schemas := SchemasOf(once).value;
      assert schemas - aliases.Keys == schemas by {
        forall name <- aliases ensures name !in schemas { NoAliasIsLeft(aliases, value, name); }
      }
      assert once.fields[COMPONENTS].fields[SCHEMAS := Obj(schemas)] == once.fields[COMPONENTS].fields;
      assert once.fields[COMPONENTS := once.fields[COMPONENTS]] == once.fields;
    }
  }

  // ---------------------------------------------------------------- ordered documents

  datatype Doc =
    | DNull
    | DBool(b: bool)
    | DNumber(n: int)
    | DText(s: string)
    | DArr(items: seq<Doc>)
    | DObj(entries: seq<Entry>)

  datatype Entry = Entry(key: string, value: Doc)

  ghost predicate DistinctKeys(entries: seq<Entry>) {
    forall i, j | 0 <= i < j < |entries| :: entries[i].key != entries[j].key
  }

  /** No object has a key twice. */
  ghost predicate Proper(doc: Doc) {
    match doc
    case DObj(entries) => DistinctKeys(entries) && forall i | 0 <= i < |entries| :: Proper(entries[i].value)
    case DArr(items) => forall i | 0 <= i < |items| :: Proper(items[i])
    case _ => true
  }

  function Keys(entries: seq<Entry>): set<string> {
    set i | 0 <= i < |entries| :: entries[i].key
  }

  function Position(entries: seq<Entry>, key: string): (i: nat)
    requires key in Keys(entries)
    ensures i < |entries| && entries[i].key == key
  {
    if entries[0].key == key then 0 else
      assert key in Keys(entries[1..]) by {
        var i :| 0 <= i < |entries| && entries[i].key == key;
        assert entries[1..][i - 1].key == key;
      }
      1 + Position(entries[1..], key)
  }

  lemma PositionIsUnique(entries: seq<Entry>, i: nat)
    requires DistinctKeys(entries) && i < |entries|
    ensures entries[i].key in Keys(entries) && Position(entries, entries[i].key) == i
  {
  }

  /** The value of a document: what is left when the order of keys is forgotten. */
  function Meaning(doc: Doc): Json {
    match doc
    case DNull => Null
    case DBool(b) => Bool(b)
    case DNumber(n) => Number(n)
    case DText(s) => Str(s)
    case DArr(items) => Arr(seq(|items|, i requires 0 <= i < |items| => Meaning(items[i])))
    case DObj(entries) => Obj(map key | key in Keys(entries) :: Meaning(entries[Position(entries, key)].value))
  }

  lemma MeaningOfEntry(entries: seq<Entry>, i: nat)
    requires DistinctKeys(entries) && i < |entries|
    ensures entries[i].key in Meaning(DObj(entries)).fields
    ensures Meaning(DObj(entries)).fields[entries[i].key] == Meaning(entries[i].value)
  {
    PositionIsUnique(entries, i);
  }

  /** The fields of an object are what its entries say, one by one. */
  lemma FieldsAre(entries: seq<Entry>, fields: map<string, Json>)
    requires DistinctKeys(entries) && Keys(entries) == fields.Keys
    requires forall i | 0 <= i < |entries| :: fields[entries[i].key] == Meaning(entries[i].value)
    ensures Meaning(DObj(entries)) == Obj(fields)
  {
    forall key | key in fields ensures Meaning(DObj(entries)).fields[key] == fields[key] {
      MeaningOfEntry(entries, Position(entries, key));
    }
    assert Meaning(DObj(entries)).fields == fields;
  }

  // ---------------------------------------------------------------- visiting the references

  function VisitedField(aliases: Aliases, key: string, value: Doc): Doc
    decreases value, 1
  {
    if key == REF && value.DText? then DText(Retargeted(aliases, value.s)) else Visited(aliases, value)
  }

  function Visited(aliases: Aliases, doc: Doc): Doc
    decreases doc, 0
  {
    match doc
    case DObj(entries) =>
      DObj(seq(|entries|, i requires 0 <= i < |entries| =>
        Entry(entries[i].key, VisitedField(aliases, entries[i].key, entries[i].value))))
    case DArr(items) => DArr(seq(|items|, i requires 0 <= i < |items| => Visited(aliases, items[i])))
    case _ => doc
  }

  /** The recursive visitor: references first, then all children. */
  method Visit(aliases: Aliases, doc: Doc) returns (visited: Doc)
    ensures visited == Visited(aliases, doc)
    decreases doc
  {
    match doc
    case DObj(entries) =>
      var after := [];
      for i := 0 to |entries|
        invariant |after| == i
        invariant forall j | 0 <= j < i ::
            after[j] == Entry(entries[j].key, VisitedField(aliases, entries[j].key, entries[j].value))
      {
        var value := entries[i].value;
        if entries[i].key == REF && value.DText? {
          value := DText(Retargeted(aliases, value.s));
        } else {
          value := Visit(aliases, value);
        }
        after := after + [Entry(entries[i].key, value)];
      }
      assert after == Visited(aliases, doc).entries;
      visited := DObj(after);
    case DArr(items) =>
      var after := [];
      for i := 0 to |items|
        invariant |after| == i
        invariant forall j | 0 <= j < i :: after[j] == Visited(aliases, items[j])
      {
        var item := Visit(aliases, items[i]);
        after := after + [item];
      }
      assert after == Visited(aliases, doc).items;
      visited := DArr(after);
    case _ =>
      visited := doc;
  }

  lemma {:induction false} VisitingIsRewriting(aliases: Aliases, doc: Doc)
    requires Proper(doc)
    ensures Proper(Visited(aliases, doc))
    ensures Meaning(Visited(aliases, doc)) == Rewritten(aliases, Meaning(doc))
  {
    match doc
    case DObj(entries) =>
      forall i | 0 <= i < |entries|
        ensures Proper(Visited(aliases, entries[i].value))
        ensures Meaning(Visited(aliases, entries[i].value)) == Rewritten(aliases, Meaning(entries[i].value))
      {
        VisitingIsRewriting(aliases, entries[i].value);
      }
      VisitedObject(aliases, entries);
    case DArr(items) =>
      var after := Visited(aliases, doc).items;
      forall i | 0 <= i < |items|
        ensures Proper(after[i]) && Meaning(after[i]) == Rewritten(aliases, Meaning(items[i]))
      {
        VisitingIsRewriting(aliases, items[i]);
      }
      assert Meaning(Visited(aliases, doc)).items == Rewritten(aliases, Meaning(doc)).items;
    case _ =>
  }

  lemma VisitedObject(aliases: Aliases, entries: seq<Entry>)
    requires Proper(DObj(entries))
    requires forall i | 0 <= i < |entries| :: Proper(Visited(aliases, entries[i].value))
    requires forall i | 0 <= i < |entries| ::
               Meaning(Visited(aliases, entries[i].value)) == Rewritten(aliases, Meaning(entries[i].value))
    ensures Proper(Visited(aliases, DObj(entries)))
    ensures Meaning(Visited(aliases, DObj(entries))) == Rewritten(aliases, Meaning(DObj(entries)))
  {
    var after := Visited(aliases, DObj(entries)).entries;
    var fields := Rewritten(aliases, Meaning(DObj(entries))).fields;
    SameKeys(entries, after);
    forall i | 0 <= i < |after| ensures Proper(after[i].value) && fields[after[i].key] == Meaning(after[i].value) {
      VisitedEntry(aliases, entries, i);
    }
    FieldsAre(after, fields);
  }

  lemma VisitedEntry(aliases: Aliases, entries: seq<Entry>, i: nat)
    requires Proper(DObj(entries)) && i < |entries|
    requires Proper(Visited(aliases, entries[i].value))
    requires Meaning(Visited(aliases, entries[i].value)) == Rewritten(aliases, Meaning(entries[i].value))
    ensures var after := Visited(aliases, DObj(entries)).entries[i];
            && after.key == entries[i].key && Proper(after.value)
            && after.key in Meaning(DObj(entries)).fields
            && Rewritten(aliases, Meaning(DObj(entries))).fields[after.key] == Meaning(after.value)
  {
    MeaningOfEntry(entries, i);
    FieldIsRewritten(aliases, Meaning(DObj(entries)), entries[i].key);
    TextsStayTexts(aliases, entries[i].value);
  }

  lemma TextsStayTexts(aliases: Aliases, doc: Doc)
    ensures doc.DText? <==> Meaning(doc).Str?
  {
  }

  lemma SameKeys(a: seq<Entry>, b: seq<Entry>)
    requires |a| == |b| && forall i | 0 <= i < |a| :: a[i].key == b[i].key
    ensures Keys(a) == Keys(b)
  {
    forall key | key in Keys(a) ensures key in Keys(b) {
      var i :| 0 <= i < |a| && a[i].key == key;
      assert b[i].key == key;
    }
    forall key | key in Keys(b) ensures key in Keys(a) {
      var i :| 0 <= i < |b| && b[i].key == key;
      assert a[i].key == key;
    }
  }

  // ---------------------------------------------------------------- removing the aliases

  /** Removal moves the last entry into the gap. */
  function Removed(entries: seq<Entry>, key: string): seq<Entry> {
    if key in Keys(entries) then
      entries[Position(entries, key) := entries[|entries| - 1]][..|entries| - 1]
    else entries
  }

  /** The same field with another value. */
  function Updated(entries: seq<Entry>, key: string, value: Doc): seq<Entry>
    requires key in Keys(entries)
  {
    entries[Position(entries, key) := Entry(key, value)]
  }

  lemma KeysOf(entries: seq<Entry>, i: nat)
    requires i < |entries|
    ensures entries[i].key in Keys(entries)
  {
  }

  /** Where the entry at an index of the shortened list was before. */
  lemma RemovedEntry(entries: seq<Entry>, key: string, i: nat)
    requires DistinctKeys(entries) && key in Keys(entries) && i < |entries| - 1
    ensures Removed(entries, key)[i] == entries[if i == Position(entries, key) then |entries| - 1 else i]
    ensures Removed(entries, key)[i].key != key
  {
    if i != Position(entries, key) { PositionIsUnique(entries, i); }
  }

  lemma RemovedKeys(entries: seq<Entry>, key: string)
    requires DistinctKeys(entries) && key in Keys(entries)
    ensures DistinctKeys(Removed(entries, key)) && Keys(Removed(entries, key)) == Keys(entries) - {key}
  {
    var p, n := Position(entries, key), |entries| - 1;
    var after := Removed(entries, key);
    assert |after| == n;
    forall i | 0 <= i < n ensures after[i] == entries[if i == p then n else i] && after[i].key != key {
      RemovedEntry(entries, key, i);
    }
    GapIsFilled(entries, after, p);
    forall k | k in Keys(after) ensures k in Keys(entries) && k != key {
      var i :| 0 <= i < n && after[i].key == k;
      KeysOf(entries, if i == p then n else i);
    }
    forall k | k in Keys(entries) && k != key ensures k in Keys(after) {
      var i :| 0 <= i <= n && entries[i].key == k;
      KeysOf(after, if i == n then p else i);
    }
  }

  lemma GapIsFilled(entries: seq<Entry>, after: seq<Entry>, p: nat)
    requires DistinctKeys(entries) && p < |entries| == |after| + 1
    requires forall i | 0 <= i < |after| :: after[i] == entries[if i == p then |after| else i]
    ensures DistinctKeys(after)
  {
  }

  /** An entry of an object that is proper says what the fields say. */
  ghost predicate EntryIs(entry: Entry, fields: map<string, Json>) {
    Proper(entry.value) && entry.key in fields && fields[entry.key] == Meaning(entry.value)
  }

  lemma EntryOfProper(entries: seq<Entry>, i: nat)
    requires Proper(DObj(entries)) && i < |entries|
    ensures EntryIs(entries[i], Meaning(DObj(entries)).fields)
  {
    MeaningOfEntry(entries, i);
  }

  lemma ObjectIs(entries: seq<Entry>, fields: map<string, Json>)
    requires DistinctKeys(entries) && Keys(entries) == fields.Keys
    requires forall i | 0 <= i < |entries| :: EntryIs(entries[i], fields)
    ensures Proper(DObj(entries)) && Meaning(DObj(entries)) == Obj(fields)
  {
    FieldsAre(entries, fields);
  }

  lemma RemovedEntryIs(entries: seq<Entry>, key: string, i: nat)
    requires Proper(DObj(entries)) && key in Keys(entries) && i < |entries| - 1
    ensures EntryIs(Removed(entries, key)[i], Meaning(DObj(entries)).fields - {key})
  {
    RemovedEntry(entries, key, i);
    EntryOfProper(entries, if i == Position(entries, key) then |entries| - 1 else i);
  }

  lemma MeaningOfRemoved(entries: seq<Entry>, key: string)
    requires Proper(DObj(entries))
    ensures Proper(DObj(Removed(entries, key)))
    ensures Meaning(DObj(Removed(entries, key))) == Obj(Meaning(DObj(entries)).fields - {key})
  {
    var fields := Meaning(DObj(entries)).fields;
    if key in Keys(entries) {
      RemovedKeys(entries, key);
      forall i | 0 <= i < |entries| - 1 ensures EntryIs(Removed(entries, key)[i], fields - {key}) {
        RemovedEntryIs(entries, key, i);
      }
      ObjectIs(Removed(entries, key), fields - {key});
    } else {
      assert fields - {key} == fields;
    }
  }

  lemma UpdatedEntryIs(entries: seq<Entry>, key: string, value: Doc, i: nat)
    requires Proper(DObj(entries)) && Proper(value) && key in Keys(entries) && i < |entries|
    ensures Updated(entries, key, value)[i].key == entries[i].key
    ensures EntryIs(Updated(entries, key, value)[i], Meaning(DObj(entries)).fields[key := Meaning(value)])
  {
    EntryOfProper(entries, i);
    if i != Position(entries, key) { PositionIsUnique(entries, i); }
  }

  lemma MeaningOfUpdated(entries: seq<Entry>, key: string, value: Doc)
    requires Proper(DObj(entries)) && Proper(value) && key in Keys(entries)
    ensures Proper(DObj(Updated(entries, key, value)))
    ensures Meaning(DObj(Updated(entries, key, value))) == Obj(Meaning(DObj(entries)).fields[key := Meaning(value)])
  {
    var fields := Meaning(DObj(entries)).fields[key := Meaning(value)];
    forall i | 0 <= i < |entries|
      ensures Updated(entries, key, value)[i].key == entries[i].key && EntryIs(Updated(entries, key, value)[i], fields)
    {
      UpdatedEntryIs(entries, key, value, i);
    }
    SameKeys(entries, Updated(entries, key, value));
    ObjectIs(Updated(entries, key, value), fields);
  }

  /** The entries of the object under a key, if there is one. */
  function ObjectUnder(doc: Doc, key: string): Option<seq<Entry>> {
    if doc.DObj? && key in Keys(doc.entries) && doc.entries[Position(doc.entries, key)].value.DObj?
    then Some(doc.entries[Position(doc.entries, key)].value.entries)
    else None
  }

  lemma MeaningUnder(doc: Doc, key: string)
    requires Proper(doc)
    ensures ObjectUnder(doc, key).Some? <==>
            Meaning(doc).Obj? && key in Meaning(doc).fields && Meaning(doc).fields[key].Obj?
    ensures ObjectUnder(doc, key).Some? ==>
            && Proper(DObj(ObjectUnder(doc, key).value))
            && Meaning(doc).fields[key] == Meaning(DObj(ObjectUnder(doc, key).value))
  {
    if doc.DObj? && key in Keys(doc.entries) {
      MeaningOfEntry(doc.entries, Position(doc.entries, key));
    }
  }

  lemma OneMoreGone(fields: map<string, Json>, gone: set<string>, name: string)
    ensures (fields - gone) - {name} == fields - (gone + {name})
  {
  }

  /** The loop over the aliases, in any order. */
  method RemoveAliases(aliases: Aliases, schemas: seq<Entry>) returns (after: seq<Entry>)
    requires Proper(DObj(schemas))
    ensures Proper(DObj(after))
    ensures Meaning(DObj(after)).fields == Meaning(DObj(schemas)).fields - aliases.Keys
  {
    after := schemas;
    var remaining := aliases.Keys;
    ghost var gone: set<string> := {};
    while remaining != {}
      invariant gone + remaining == aliases.Keys && Proper(DObj(after))
      invariant Meaning(DObj(after)) == Obj(Meaning(DObj(schemas)).fields - gone)
      decreases remaining
    {
      var name :| name in remaining;
      MeaningOfRemoved(after, name);
      OneMoreGone(Meaning(DObj(schemas)).fields, gone, name);
      after := Removed(after, name);
      remaining, gone := remaining - {name}, gone + {name};
    }
  }

  /** The whole rewriting, on the ordered document. */
  method NormalizeSchemaRefs(aliases: Aliases, doc: Doc) returns (after: Doc)
    requires Proper(doc)
    ensures Proper(after) && Meaning(after) == Normalized(aliases, Meaning(doc))
  {
    after := Visit(aliases, doc);
    VisitingIsRewriting(aliases, doc);
    MeaningUnder(after, COMPONENTS);
    var components := ObjectUnder(after, COMPONENTS);
    if components.Some? {
      MeaningUnder(DObj(components.value), SCHEMAS);
      var schemas := ObjectUnder(DObj(components.value), SCHEMAS);
      if schemas.Some? {
        var fewer := RemoveAliases(aliases, schemas.value);
        MeaningOfUpdated(components.value, SCHEMAS, DObj(fewer));
        var inner := DObj(Updated(components.value, SCHEMAS, DObj(fewer)));
        MeaningOfUpdated(after.entries, COMPONENTS, inner);
        after := DObj(Updated(after.entries, COMPONENTS, inner));
      }
    }
  }

  // ---------------------------------------------------------------- sorting

  /** The order of texts, character by character. */
  predicate Less(a: string, b: string) {
    b != "" && (a == "" || a[0] < b[0] || (a[0] == b[0] && Less(a[1..], b[1..])))
  }

  lemma {:induction false} LessIsTransitive(a: string, b: string, c: string)
    requires Less(a, b) && Less(b, c)
    ensures Less(a, c)
  {
    if a != "" && a[0] == b[0] == c[0] { LessIsTransitive(a[1..], b[1..], c[1..]); }
  }

  lemma {:induction false} LessIsTotal(a: string, b: string)
    ensures a == b || Less(a, b) || Less(b, a)
    ensures !(Less(a, b) && Less(b, a)) && !Less(a, a)
  {
    if a != "" {
      LessIsTotal(a[1..], a[1..]);
      if b != "" && a[0] == b[0] {
        LessIsTotal(a[1..], b[1..]);
        assert a == [a[0]] + a[1..] && b == [b[0]] + b[1..];
      }
    }
  }

  /** A text comes first if it is shorter, or smaller at the first place where they differ. */
  ghost predicate FirstDiffersAt(a: string, b: string, k: nat) {
    && k <= |a| && k < |b| && a[..k] == b[..k]
    && (k == |a| || a[k] < b[k])
  }

  lemma {:induction false} LessExactly(a: string, b: string)
    ensures Less(a, b) <==> exists k: nat :: FirstDiffersAt(a, b, k)
  {
    if b != "" {
      if a == "" {
        assert FirstDiffersAt(a, b, 0);
      } else {
        if a[0] < b[0] { assert FirstDiffersAt(a, b, 0); }
        LessExactly(a[1..], b[1..]);
        if k: nat :| FirstDiffersAt(a[1..], b[1..], k) && a[0] == b[0] {
          assert a[..k + 1] == [a[0]] + a[1..][..k] && b[..k + 1] == [b[0]] + b[1..][..k];
          assert FirstDiffersAt(a, b, k + 1);
        }
        if k: nat :| FirstDiffersAt(a, b, k) && k > 0 {
          assert a[1..][..k - 1] == a[..k][1..] && b[1..][..k - 1] == b[..k][1..];
          assert a[..k][0] == a[0] && b[..k][0] == b[0];
          assert FirstDiffersAt(a[1..], b[1..], k - 1);
        }
      }
    }
  }

  function Insert(entry: Entry, entries: seq<Entry>): seq<Entry> {
    if entries == [] || Less(entry.key, entries[0].key) then [entry] + entries
    else [entries[0]] + Insert(entry, entries[1..])
  }

  function SortedByKey(entries: seq<Entry>): seq<Entry> {
    if entries == [] then [] else Insert(entries[0], SortedByKey(entries[1..]))
  }

  /** Keys in strictly increasing order. */
  ghost predicate Increasing(entries: seq<Entry>) {
    forall i, j | 0 <= i < j < |entries| :: Less(entries[i].key, entries[j].key)
  }

  function Elements(entries: seq<Entry>): set<Entry> {
    set e | e in entries
  }

  lemma {:induction false} InsertKeepsElements(entry: Entry, entries: seq<Entry>)
    ensures Elements(Insert(entry, entries)) == Elements(entries) + {entry}
    ensures |Insert(entry, entries)| == |entries| + 1
  {
    if entries == [] || Less(entry.key, entries[0].key) {
      assert Insert(entry, entries) == [entry] + entries;
    } else {
      InsertKeepsElements(entry, entries[1..]);
      assert entries == [entries[0]] + entries[1..];
      ElementsOfOneMore(entries[0], entries[1..]);
      ElementsOfOneMore(entries[0], Insert(entry, entries[1..]));
    }
  }

  lemma ElementsOfOneMore(first: Entry, rest: seq<Entry>)
    ensures Elements([first] + rest) == {first} + Elements(rest)
  {
  }

  lemma {:induction false} InsertIncreases(entry: Entry, entries: seq<Entry>)
    requires Increasing(entries) && forall e <- entries :: e.key != entry.key
    ensures Increasing(Insert(entry, entries))
  {
    if entries == [] {
    } else if Less(entry.key, entries[0].key) {
      forall j | 0 <= j < |entries| ensures Less(entry.key, entries[j].key) {
        if j > 0 { LessIsTransitive(entry.key, entries[0].key, entries[j].key); }
      }
    } else {
      LessIsTotal(entry.key, entries[0].key);
      assert Less(entries[0].key, entry.key);
      InsertIncreases(entry, entries[1..]);
      InsertKeepsElements(entry, entries[1..]);
      var rest := Insert(entry, entries[1..]);
      forall j | 0 <= j < |rest| ensures Less(entries[0].key, rest[j].key) {
        assert rest[j] in Elements(rest);
        if rest[j] in entries[1..] {
          var i :| 0 <= i < |entries[1..]| && entries[1..][i] == rest[j];
          assert entries[i + 1] == rest[j];
        }
      }
    }
  }

  lemma {:induction false} SortingKeepsElements(entries: seq<Entry>)
    requires DistinctKeys(entries)
    ensures Elements(SortedByKey(entries)) == Elements(entries) && |SortedByKey(entries)| == |entries|
    ensures Increasing(SortedByKey(entries))
  {
    if entries != [] {
      var rest := SortedByKey(entries[1..]);
      SortingKeepsElements(entries[1..]);
      InsertKeepsElements(entries[0], rest);
      forall e <- rest ensures e.key != entries[0].key {
        assert e in Elements(rest);
        var i :| 0 <= i < |entries[1..]| && entries[1..][i] == e;
        assert entries[i + 1] == e;
      }
      InsertIncreases(entries[0], rest);
      assert entries == [entries[0]] + entries[1..];
      ElementsOfOneMore(entries[0], entries[1..]);
    }
  }

  lemma IncreasingIsDistinct(entries: seq<Entry>)
    requires Increasing(entries)
    ensures DistinctKeys(entries)
  {
    forall i, j | 0 <= i < j < |entries| ensures entries[i].key != entries[j].key {
      LessIsTotal(entries[i].key, entries[j].key);
    }
  }

  /** Increasing lists of the same entries are the same list. */
  lemma {:induction false} IncreasingIsUnique(a: seq<Entry>, b: seq<Entry>)
    requires Increasing(a) && Increasing(b) && Elements(a) == Elements(b)
    ensures a == b
    decreases |a|
  {
    NoElements(a);
    NoElements(b);
    if a != [] {
      FirstIsLeast(a, b);
      FirstIsLeast(b, a);
      LessIsTotal(a[0].key, b[0].key);
      assert a[0] == b[0];
      RestOfElements(a);
      RestOfElements(b);
      IncreasingIsUnique(a[1..], b[1..]);
      assert a == [a[0]] + a[1..] && b == [b[0]] + b[1..];
    }
  }

  lemma NoElements(a: seq<Entry>)
    ensures a == [] <==> Elements(a) == {}
  {
    if a != [] { assert a[0] in Elements(a); }
  }

  lemma FirstIsLeast(a: seq<Entry>, b: seq<Entry>)
    requires Increasing(a) && Elements(a) == Elements(b) && a != [] && b != []
    ensures b[0] == a[0] || Less(a[0].key, b[0].key)
  {
    assert b[0] in Elements(b);
    var i :| 0 <= i < |a| && a[i] == b[0];
  }

  lemma RestOfElements(a: seq<Entry>)
    requires Increasing(a) && a != []
    ensures Elements(a[1..]) == Elements(a) - {a[0]}
  {
    assert a == [a[0]] + a[1..];
    ElementsOfOneMore(a[0], a[1..]);
    assert a[0] !in a[1..] by {
      if a[0] in a[1..] {
        var i :| 0 <= i < |a[1..]| && a[1..][i] == a[0];
        LessIsTotal(a[0].key, a[i + 1].key);
      }
    }
  }

  function Sorted(doc: Doc): Doc {
    match doc
    case DObj(entries) =>
      DObj(SortedByKey(seq(|entries|, i requires 0 <= i < |entries| => Entry(entries[i].key, Sorted(entries[i].value)))))
    case DArr(items) => DArr(seq(|items|, i requires 0 <= i < |items| => Sorted(items[i])))
    case _ => doc
  }

  /** The recursive visitor: all children, then the keys of an object. */
  method SortJsonObjects(doc: Doc) returns (sorted: Doc)
    ensures sorted == Sorted(doc)
    decreases doc
  {
    match doc
    case DObj(entries) =>
      var after := [];
      for i := 0 to |entries|
        invariant |after| == i
        invariant forall j | 0 <= j < i :: after[j] == Entry(entries[j].key, Sorted(entries[j].value))
      {
        var value := SortJsonObjects(entries[i].value);
        after := after + [Entry(entries[i].key, value)];
      }
      assert after == SortedChildren(entries);
      sorted := DObj(SortedByKey(after));
    case DArr(items) =>
      var after := [];
      for i := 0 to |items|
        invariant |after| == i
        invariant forall j | 0 <= j < i :: after[j] == Sorted(items[j])
      {
        var item := SortJsonObjects(items[i]);
        after := after + [item];
      }
      assert after == Sorted(doc).items;
      sorted := DArr(after);
    case _ =>
      sorted := doc;
  }

  // The children of an object, sorted themselves.
  function SortedChildren(entries: seq<Entry>): (r: seq<Entry>)
    ensures |r| == |entries|
    ensures forall i | 0 <= i < |r| :: r[i] == Entry(entries[i].key, Sorted(entries[i].value))
  {
    seq(|entries|, i requires 0 <= i < |entries| => Entry(entries[i].key, Sorted(entries[i].value)))
  }

  /** Sorting keeps the value of a document. */
  lemma {:induction false} SortingKeepsMeaning(doc: Doc)
    requires Proper(doc)
    ensures Proper(Sorted(doc)) && Meaning(Sorted(doc)) == Meaning(doc)
  {
    match doc
    case DObj(entries) =>
      forall i | 0 <= i < |entries|
        ensures Proper(Sorted(entries[i].value)) && Meaning(Sorted(entries[i].value)) == Meaning(entries[i].value)
      {
        SortingKeepsMeaning(entries[i].value);
      }
      var children := SortedChildren(entries);
      forall i | 0 <= i < |entries| ensures EntryIs(children[i], Meaning(doc).fields) {
        EntryOfProper(entries, i);
      }
      SameKeys(entries, children);
      SortedObject(children, Meaning(doc).fields);
      assert Sorted(doc) == DObj(SortedByKey(children));
    case DArr(items) =>
      forall i | 0 <= i < |items| ensures Proper(Sorted(items[i])) && Meaning(Sorted(items[i])) == Meaning(items[i]) {
        SortingKeepsMeaning(items[i]);
      }
      assert Meaning(Sorted(doc)).items == Meaning(doc).items;
    case _ =>
  }

  lemma SortedObject(entries: seq<Entry>, fields: map<string, Json>)
    requires DistinctKeys(entries) && Keys(entries) == fields.Keys
    requires forall i | 0 <= i < |entries| :: EntryIs(entries[i], fields)
    ensures Proper(DObj(SortedByKey(entries))) && Meaning(DObj(SortedByKey(entries))) == Obj(fields)
  {
    var after := SortedByKey(entries);
    SortingKeepsElements(entries);
    IncreasingIsDistinct(after);
    forall i | 0 <= i < |after| ensures EntryIs(after[i], fields) {
      assert after[i] in Elements(after);
    }
    KeysOfElements(entries, after);
    ObjectIs(after, fields);
  }

  lemma KeysOfElements(a: seq<Entry>, b: seq<Entry>)
    requires Elements(a) == Elements(b)
    ensures Keys(a) == Keys(b)
  {
    forall key | key in Keys(a) ensures key in Keys(b) {
      var i :| 0 <= i < |a| && a[i].key == key;
      assert a[i] in Elements(b);
      var j :| 0 <= j < |b| && b[j] == a[i];
      KeysOf(b, j);
    }
    forall key | key in Keys(b) ensures key in Keys(a) {
      var i :| 0 <= i < |b| && b[i].key == key;
      assert b[i] in Elements(a);
      var j :| 0 <= j < |a| && a[j] == b[i];
      KeysOf(a, j);
    }
  }

  /** The sorted form depends on nothing but the value: it is the same whatever the order was before. */
  lemma {:induction false} SortedFormIsCanonical(a: Doc, b: Doc)
    requires Proper(a) && Proper(b) && Meaning(a) == Meaning(b)
    ensures Sorted(a) == Sorted(b)
    decreases a
  {
    match a
    case DObj(entries) =>
      forall i, j | 0 <= i < |entries| && 0 <= j < |b.entries| && entries[i].key == b.entries[j].key
        ensures Sorted(entries[i].value) == Sorted(b.entries[j].value)
      {
        MeaningOfEntry(entries, i);
        MeaningOfEntry(b.entries, j);
        SortedFormIsCanonical(entries[i].value, b.entries[j].value);
      }
      assert Keys(entries) == Meaning(a).fields.Keys == Keys(b.entries);
      SameChildrenSameForm(entries, b.entries);
    case DArr(items) =>
      assert |items| == |Meaning(a).items| == |b.items|;
      forall i | 0 <= i < |items| ensures Sorted(items[i]) == Sorted(b.items[i]) {
        assert Meaning(a).items[i] == Meaning(b).items[i];
        SortedFormIsCanonical(items[i], b.items[i]);
      }
      assert Sorted(a).items == Sorted(b).items;
    case _ =>
  }

  lemma SameChildrenSameForm(a: seq<Entry>, b: seq<Entry>)
    requires DistinctKeys(a) && DistinctKeys(b) && Keys(a) == Keys(b)
    requires forall i, j | 0 <= i < |a| && 0 <= j < |b| && a[i].key == b[j].key :: Sorted(a[i].value) == Sorted(b[j].value)
    ensures Sorted(DObj(a)) == Sorted(DObj(b))
  {
    var x, y := SortedChildren(a), SortedChildren(b);
    forall e <- x ensures e in y {
      var i :| 0 <= i < |x| && x[i] == e;
      KeysOf(a, i);
      var j := Position(b, a[i].key);
      assert y[j] == e;
    }
    forall e <- y ensures e in x {
      var j :| 0 <= j < |y| && y[j] == e;
      KeysOf(b, j);
      var i := Position(a, b[j].key);
      assert x[i] == e;
    }
    assert Elements(x) == Elements(y);
    SortingKeepsElements(x);
    SortingKeepsElements(y);
    IncreasingIsUnique(SortedByKey(x), SortedByKey(y));
    assert Sorted(DObj(a)) == DObj(SortedByKey(x)) && Sorted(DObj(b)) == DObj(SortedByKey(y));
  }
}
