/**
 The admission of a new execution in `beampipe-api`: one pass over the requested sources, the
 active project configuration, the deployment profile and the discovered metadata collects all
 errors. Its decision has to agree with the canonical form that the idempotency hash is taken of.

 The tables it reads are one fixed snapshot. Error texts are values here, with the parts that
 the texts mention.
 */
module Admission {
  import opened Json
  import opened Options
  import opened Text

  // ---------------------------------------------------------------- requests and tables

  datatype Selection = Selection(id: string, groups: Option<seq<string>>)

  datatype Create = Create(
    project: string,
    sources: seq<Selection>,
    archive: string,
    profileId: Option<string>,
    profileName: Option<string>)

  /** `faults` are the errors of the validation report. */
  datatype Config = Config(id: string, archives: seq<string>, maxSources: Option<int>, faults: seq<string>)

  /** `config` is None if the stored text is not a configuration. */
  datatype ConfigRow = ConfigRow(uuid: string, config: Option<Config>)

  datatype Profile = Profile(uuid: string, name: string, project: Option<string>, sound: bool)

  datatype Registered = Registered(
    enabled: bool, checked: bool, signature: Option<string>, claim: Option<string>)

  datatype Row = Row(project: string, source: string, group: string, metadata: Option<Json>)

  datatype Tables = Tables(
    active: map<string, ConfigRow>,
    profiles: map<string, Profile>,
    profilesByName: map<string, Profile>,
    defaults: map<string, Profile>,
    globalDefault: Option<Profile>,
    registry: map<(string, string), Registered>,
    rows: seq<Row>)

  datatype NotReady =
    | NotRegistered | Disabled | NeverChecked | NoSignature | Claimed | NoMetadata | FlagsFailed(keys: set<string>)

  datatype Error =
    | ProjectEmpty | ArchiveEmpty | NoSources
    | SourceEmpty(index: nat) | SourceTwice(id: string)
    | GroupsEmpty(index: nat) | GroupsTwice(index: nat)
    | ConfigUnreadable | ConfigInvalid(faults: seq<string>) | ConfigOfOther(id: string, project: string) | NoConfig(project: string)
    | ArchiveDisabled(archive: string, project: string) | TooManySources(project: string, limit: nat, received: nat)
    | TwoProfiles | ProfileIdUnknown(id: string) | ProfileNameEmpty | ProfileNameUnknown(name: string)
    | NoDefaultProfile(project: string) | ProfileOfOther(name: string, project: string) | ProfileInvalid(name: string)
    | GroupUndiscovered(source: string, group: string) | SourceNotReady(source: string, reason: NotReady)

  datatype Preview = Preview(source: string, groupCount: nat, recordCount: nat)

  datatype Admission = Admission(
    project: string,
    errors: seq<Error>,
    totalRecords: nat,
    previews: seq<Preview>,
    profile: Option<string>,
    config: Option<string>,
    sources: seq<Selection>)

  // ---------------------------------------------------------------- the parts of the decision

  function TrimAll(texts: seq<string>): (r: seq<string>)
    ensures |r| == |texts| && forall i | 0 <= i < |r| :: r[i] == Trim(texts[i])
  {
    seq(|texts|, i requires 0 <= i < |texts| => Trim(texts[i]))
  }

  function TrimGroups(groups: Option<seq<string>>): Option<seq<string>> {
    if groups.None? then None else Some(TrimAll(groups.value))
  }

  function Normalized(selection: Selection): Selection {
    Selection(Trim(selection.id), TrimGroups(selection.groups))
  }

  function Elements(texts: seq<string>): set<string> {
    set t | t in texts
  }

  /** The complaints about the groups of one source, which are trimmed already. */
  function GroupErrors(index: nat, groups: Option<seq<string>>): seq<Error> {
    if groups.None? then []
    else
      (if groups.value == [] || exists g <- groups.value :: Trim(g) == "" then [GroupsEmpty(index)] else [])
      + (if |Elements(groups.value)| != |groups.value| then [GroupsTwice(index)] else [])
  }

  /** The complaints about one source, given those kept before it. */
  function ScanErrors(kept: seq<Selection>, index: nat, selection: Selection): seq<Error> {
    var id := Trim(selection.id);
    if id == "" then [SourceEmpty(index)]
    else if id in Ids(kept) then [SourceTwice(id)]
    else GroupErrors(index, TrimGroups(selection.groups))
  }

  function KeptOf(kept: seq<Selection>, selection: Selection): seq<Selection> {
    if Trim(selection.id) == "" || Trim(selection.id) in Ids(kept) then [] else [Normalized(selection)]
  }

  /** Errors of the requested sources, and those that are kept, normalised. */
  function ScanSources(sources: seq<Selection>): (seq<Error>, seq<Selection>) {
    if sources == [] then ([], [])
    else
      var index := |sources| - 1;
      var (errors, kept) := ScanSources(sources[..index]);
      (errors + ScanErrors(kept, index, sources[index]), kept + KeptOf(kept, sources[index]))
  }

  function SourceLimit(config: Config): Option<nat> {
    if config.maxSources.Some? && config.maxSources.value > 0 then Some(config.maxSources.value) else None
  }

  /** The first three faults are reported. */
  function FirstFaults(faults: seq<string>): seq<string> {
    if |faults| <= 3 then faults else faults[..3]
  }

  function ConfigErrors(t: Tables, project: string, archive: string, kept: nat): seq<Error> {
    if project == "" then []
    else if project !in t.active then [NoConfig(project)]
    else if t.active[project].config.None? then [ConfigUnreadable]
    else
      var config := t.active[project].config.value;
      (if config.faults != [] then [ConfigInvalid(FirstFaults(config.faults))] else [])
      + (if config.id != project then [ConfigOfOther(config.id, project)] else [])
      + (if archive != "" && archive !in config.archives then [ArchiveDisabled(archive, project)] else [])
      + (if SourceLimit(config).Some? && kept > SourceLimit(config).value
         then [TooManySources(project, SourceLimit(config).value, kept)] else [])
  }

  function DefaultProfile(t: Tables, project: string): Option<Profile> {
    if project in t.defaults then Some(t.defaults[project]) else t.globalDefault
  }

  /** The profile a request refers to, and the complaint if there is none. */
  function ChosenProfile(t: Tables, project: string, id: Option<string>, name: Option<string>): (Option<Profile>, seq<Error>) {
    if id.Some? && name.Some? then (None, [TwoProfiles])
    else if id.Some? then
      if id.value in t.profiles then (Some(t.profiles[id.value]), []) else (None, [ProfileIdUnknown(id.value)])
    else if name.Some? then
      var n := Trim(name.value);
      if n == "" then (None, [ProfileNameEmpty])
      else if n in t.profilesByName then (Some(t.profilesByName[n]), [])
      else (None, [ProfileNameUnknown(n)])
    else if project == "" then (None, [])
    else if DefaultProfile(t, project).Some? then (DefaultProfile(t, project), [])
    else (None, [NoDefaultProfile(project)])
  }

  function ProfileErrors(profile: Option<Profile>, project: string): seq<Error> {
    if profile.None? then []
    else
      (if profile.value.project.Some? && profile.value.project.value != project
       then [ProfileOfOther(profile.value.name, profile.value.project.value)] else [])
      + (if !profile.value.sound then [ProfileInvalid(profile.value.name)] else [])
  }

  /** The metadata query: the rows of a project for a list of sources. */
  function Fetched(rows: seq<Row>, project: string, ids: seq<string>): seq<Row> {
    if rows == [] then []
    else
      var front, last := rows[..|rows| - 1], rows[|rows| - 1];
      Fetched(front, project, ids) + (if last.project == project && last.source in ids then [last] else [])
  }

  predicate Wanted(row: Row, selection: Selection) {
    row.source == selection.id && (selection.groups.Some? ==> row.group in selection.groups.value)
  }

  function Matching(rows: seq<Row>, selection: Selection): seq<Row> {
    if rows == [] then []
    else
      var front, last := rows[..|rows| - 1], rows[|rows| - 1];
      Matching(front, selection) + (if Wanted(last, selection) then [last] else [])
  }

  predicate FlagPasses(flag: Json) {
    match flag
    case Null => false
    case Bool(b) => b
    case Str(s) => Trim(s) != ""
    case Number(n) => n != 0
    case Arr(items) => items != []
    case Obj(fields) => fields != map[]
  }

  function FailedFlags(row: Row): set<string> {
    if row.metadata.Some? && row.metadata.value.Obj? && "discovery_flags" in row.metadata.value.fields
       && row.metadata.value.fields["discovery_flags"].Obj?
    then
      var flags := row.metadata.value.fields["discovery_flags"].fields;
      set key | key in flags && !FlagPasses(flags[key])
    else {}
  }

  /** The first row with failed flags decides. */
  function FlagError(rows: seq<Row>): Option<NotReady> {
    if rows == [] then None
    else if FailedFlags(rows[0]) != {} then Some(FlagsFailed(FailedFlags(rows[0])))
    else FlagError(rows[1..])
  }

  function ReadinessError(registered: Option<Registered>, rows: seq<Row>): Option<NotReady> {
    if registered.None? then Some(NotRegistered)
    else if !registered.value.enabled then Some(Disabled)
    else if !registered.value.checked then Some(NeverChecked)
    else if registered.value.signature.None? || registered.value.signature.value == "" then Some(NoSignature)
    else if registered.value.claim.Some? then Some(Claimed)
    else if rows == [] then Some(NoMetadata)
    else FlagError(rows)
  }

  function RegisteredIn(t: Tables, project: string, id: string): Option<Registered> {
    if (project, id) in t.registry then Some(t.registry[(project, id)]) else None
  }

  predicate Discovered(rows: seq<Row>, group: string) {
    exists row <- rows :: row.group == group
  }

  function MissingGroups(id: string, groups: seq<string>, rows: seq<Row>): seq<Error> {
    if groups == [] then []
    else
      var front, last := groups[..|groups| - 1], groups[|groups| - 1];
      MissingGroups(id, front, rows) + (if Discovered(rows, last) then [] else [GroupUndiscovered(id, last)])
  }

  /** The length of the list of records, if there is one. */
  function RecordCount(metadata: Json): nat {
    if metadata.Obj? && "records" in metadata.fields && metadata.fields["records"].Arr?
    then |metadata.fields["records"].items|
    else 0
  }

  function RecordsOf(rows: seq<Row>): nat {
    if rows == [] then 0
    else (if rows[0].metadata.Some? then RecordCount(rows[0].metadata.value) else 0) + RecordsOf(rows[1..])
  }

  /** The errors of one normalised source. */
  function SourceErrors(t: Tables, project: string, selection: Selection, rows: seq<Row>): seq<Error> {
    (if selection.groups.Some? then MissingGroups(selection.id, selection.groups.value, rows) else [])
    + (var reason := ReadinessError(RegisteredIn(t, project, selection.id), rows);
       if reason.Some? then [SourceNotReady(selection.id, reason.value)] else [])
  }

  function PreviewOf(t: Tables, project: string, selection: Selection, rows: seq<Row>): seq<Preview> {
    if ReadinessError(RegisteredIn(t, project, selection.id), rows).Some? then []
    else [Preview(selection.id, |rows|, RecordsOf(rows))]
  }

  /** Errors and previews of the sources of a project, out of the rows fetched for all of them. */
  function Inspect(t: Tables, project: string, kept: seq<Selection>, fetched: seq<Row>): (seq<Error>, seq<Preview>) {
    if kept == [] then ([], [])
    else
      var last := kept[|kept| - 1];
      var rows := Matching(fetched, last);
      var (errors, previews) := Inspect(t, project, kept[..|kept| - 1], fetched);
      (errors + SourceErrors(t, project, last, rows), previews + PreviewOf(t, project, last, rows))
  }

  function TotalRecords(previews: seq<Preview>): nat {
    if previews == [] then 0 else TotalRecords(previews[..|previews| - 1]) + previews[|previews| - 1].recordCount
  }

  function Ids(kept: seq<Selection>): (ids: seq<string>)
    ensures |ids| == |kept| && forall i | 0 <= i < |ids| :: ids[i] == kept[i].id
  {
    seq(|kept|, i requires 0 <= i < |kept| => kept[i].id)
  }

  function HeadErrors(project: string, archive: string, none: bool): seq<Error> {
    (if project == "" then [ProjectEmpty] else [])
    + (if archive == "" then [ArchiveEmpty] else [])
    + (if none then [NoSources] else [])
  }

  /** The decision about the scanned sources of a project. */
  function Decide(t: Tables, project: string, archive: string, scanErrors: seq<Error>, kept: seq<Selection>,
                  profile: Option<Profile>, choiceErrors: seq<Error>, none: bool): Admission {
    var (inspectErrors, previews) := Inspect(t, project, kept, Fetched(t.rows, project, Ids(kept)));
    Admission(
      project,
      HeadErrors(project, archive, none) + scanErrors + ConfigErrors(t, project, archive, |kept|)
      + choiceErrors + ProfileErrors(profile, project) + inspectErrors,
      TotalRecords(previews),
      previews,
      if profile.Some? then Some(profile.value.uuid) else None,
      if project != "" && project in t.active then Some(t.active[project].uuid) else None,
      kept)
  }

  /** The whole decision; it echoes the project as it was given. */
  function Decision(t: Tables, req: Create): Admission {
    var project := Trim(req.project);
    var scan := ScanSources(req.sources);
    var choice := ChosenProfile(t, project, req.profileId, req.profileName);
    Decide(t, project, Trim(req.archive), scan.0, scan.1, choice.0, choice.1, req.sources == []).(project := req.project)
  }

  // ---------------------------------------------------------------- the handler

  lemma SeenOfOneMore(kept: seq<Selection>, selection: Selection)
    ensures Elements(Ids(kept + [selection])) == Elements(Ids(kept)) + {selection.id}
  {
    assert Ids(kept + [selection]) == Ids(kept) + [selection.id];
  }

  /** The loop over the requested sources. */
  method CollectSources(sources: seq<Selection>) returns (errors: seq<Error>, kept: seq<Selection>)
    ensures (errors, kept) == ScanSources(sources)
  {
    errors, kept := [], [];
    var seen := {};
    for index := 0 to |sources|
      invariant (errors, kept) == ScanSources(sources[..index])
      invariant seen == Elements(Ids(kept))
    {
      assert sources[..index + 1][..index] == sources[..index];
      var id := Trim(sources[index].id);
      if id == "" {
        errors := errors + [SourceEmpty(index)];
        assert kept + [] == kept;
      } else if id in seen {
        errors := errors + [SourceTwice(id)];
        assert kept + [] == kept;
      } else {
        seen := seen + {id};
        var groups := TrimGroups(sources[index].groups);
        var complaints := CheckGroups(index, groups);
        SeenOfOneMore(kept, Selection(id, groups));
        errors, kept := errors + complaints, kept + [Selection(id, groups)];
      }
    }
    assert sources[..|sources|] == sources;
  }

  /** The two complaints about a selection of groups: it lacks a name, or has one twice. */
  method CheckGroups(index: nat, groups: Option<seq<string>>) returns (errors: seq<Error>)
    ensures errors == GroupErrors(index, groups)
    ensures AllTrimmed(groups) ==>
      && (errors == [] <==> GroupsInOrder(groups))
      && (GroupsEmpty(index) in errors <==> groups.Some? && (groups.value == [] || "" in groups.value))
      && (GroupsTwice(index) in errors <==> groups.Some? && !Distinct(groups.value))
  {
    GroupErrorsMean(index, groups);
    errors := [];
    if groups.Some? {
      if groups.value == [] || exists g <- groups.value :: Trim(g) == "" {
        errors := errors + [GroupsEmpty(index)];
      }
      if |Elements(groups.value)| != |groups.value| {
        errors := errors + [GroupsTwice(index)];
      }
    }
  }

  /** The loop over the groups selected of one source. */
  method CheckDiscovered(id: string, groups: seq<string>, rows: seq<Row>) returns (errors: seq<Error>)
    ensures errors == MissingGroups(id, groups, rows)
  {
    errors := [];
    for j := 0 to |groups|
      invariant errors == MissingGroups(id, groups[..j], rows)
    {
      assert groups[..j + 1][..j] == groups[..j];
      if !Discovered(rows, groups[j]) {
        errors := errors + [GroupUndiscovered(id, groups[j])];
      }
    }
    assert groups[..|groups|] == groups;
  }

  /** What one source adds to the errors and previews. */
  method InspectSource(t: Tables, project: string, selection: Selection, rows: seq<Row>)
      returns (errors: seq<Error>, shown: seq<Preview>)
    ensures errors == SourceErrors(t, project, selection, rows)
    ensures shown == PreviewOf(t, project, selection, rows)
    ensures rows == RowsFor(t.rows, project, selection) ==>
      && (errors == [] <==> SourceInOrder(t, project, selection))
      && (shown != [] <==> IsReady(t, project, selection))
      && forall reason :: SourceNotReady(selection.id, reason) in errors <==> Lacks(t, project, selection, reason)
  {
    if rows == RowsFor(t.rows, project, selection) { SourceErrorsMean(t, project, selection); }
    errors, shown := [], [];
    if selection.groups.Some? {
      errors := CheckDiscovered(selection.id, selection.groups.value, rows);
    }
    var reason := ReadinessError(RegisteredIn(t, project, selection.id), rows);
    if reason.Some? {
      errors := errors + [SourceNotReady(selection.id, reason.value)];
    } else {
      shown := [Preview(selection.id, |rows|, RecordsOf(rows))];
    }
  }

  lemma TotalOfMore(previews: seq<Preview>, shown: seq<Preview>)
    requires |shown| <= 1
    ensures TotalRecords(previews + shown) == TotalRecords(previews) + (if shown == [] then 0 else shown[0].recordCount)
  {
    if shown == [] {
      assert previews + shown == previews;
    } else {
      assert (previews + shown)[..|previews|] == previews;
    }
  }

  /** The loop over the normalised sources. */
  method InspectSources(t: Tables, project: string, kept: seq<Selection>, fetched: seq<Row>)
      returns (errors: seq<Error>, previews: seq<Preview>, totalRecords: nat)
    ensures (errors, previews) == Inspect(t, project, kept, fetched)
    ensures totalRecords == TotalRecords(previews)
    ensures fetched == Fetched(t.rows, project, Ids(kept)) ==> (errors == [] <==> AllInOrder(t, project, kept))
  {
    errors, previews, totalRecords := [], [], 0;
    for i := 0 to |kept|
      invariant (errors, previews) == Inspect(t, project, kept[..i], fetched)
      invariant totalRecords == TotalRecords(previews)
    {
      assert kept[..i + 1][..i] == kept[..i];
      var found, shown := InspectSource(t, project, kept[i], Matching(fetched, kept[i]));
      TotalOfMore(previews, shown);
      if shown != [] {
        totalRecords := totalRecords + shown[0].recordCount;
      }
      errors, previews := errors + found, previews + shown;
    }
    assert kept[..|kept|] == kept;
    if fetched == Fetched(t.rows, project, Ids(kept)) { InspectedInOrder(t, project, kept); }
  }

  lemma InspectedInOrder(t: Tables, project: string, kept: seq<Selection>)
    ensures Inspect(t, project, kept, Fetched(t.rows, project, Ids(kept))).0 == [] <==> AllInOrder(t, project, kept)
  {
    NoInspectErrors(t, project, kept, Ids(kept));
  }

  method ValidateExecutionAdmission(t: Tables, req: Create) returns (admission: Admission)
    ensures admission == Decision(t, req)
  {
    var project, archive := Trim(req.project), Trim(req.archive);
    var errors := [];
    if project == "" {
      errors := errors + [ProjectEmpty];
    }
    if archive == "" {
      errors := errors + [ArchiveEmpty];
    }
    if req.sources == [] {
      errors := errors + [NoSources];
    }
    assert errors == HeadErrors(project, archive, req.sources == []);
    var scanErrors, kept := CollectSources(req.sources);
    errors := errors + scanErrors + ConfigErrors(t, project, archive, |kept|);
    var (profile, choiceErrors) := ChosenProfile(t, project, req.profileId, req.profileName);
    errors := errors + choiceErrors + ProfileErrors(profile, project);
    var inspectErrors, previews, totalRecords := InspectSources(t, project, kept, Fetched(t.rows, project, Ids(kept)));
    errors := errors + inspectErrors;
    admission := Admission(
      req.project, errors, totalRecords, previews,
      if profile.Some? then Some(profile.value.uuid) else None,
      if project != "" && project in t.active then Some(t.active[project].uuid) else None,
      kept);
  }

  // ---------------------------------------------------------------- agreement with the canonical form

  function TextOrNull(text: Option<string>): Json {
    if text.Some? then Str(text.value) else Null
  }

  function CanonicalSource(selection: Selection): Json {
    var groups := TrimGroups(selection.groups);
    Obj(map[
      "source_identifier" := Str(Trim(selection.id)),
      "groups" := if groups.None? then Null else Arr(seq(|groups.value|, i requires 0 <= i < |groups.value| => Str(groups.value[i])))
    ])
  }

  /** What the idempotency hash of a creation is taken of. */
  function Canonical(req: Create): Json {
    Obj(map[
      "project_module" := Str(Trim(req.project)),
      "sources" := Arr(seq(|req.sources|, i requires 0 <= i < |req.sources| => CanonicalSource(req.sources[i]))),
      "archive_name" := Str(Trim(req.archive)),
      "deployment_profile_id" := TextOrNull(req.profileId),
      "deployment_profile_name" := if req.profileName.None? then Null else Str(Trim(req.profileName.value))
    ])
  }

  function NormalSources(sources: seq<Selection>): (r: seq<Selection>)
    ensures |r| == |sources| && forall i | 0 <= i < |r| :: r[i] == Normalized(sources[i])
  {
    seq(|sources|, i requires 0 <= i < |sources| => Normalized(sources[i]))
  }

  function NormalName(name: Option<string>): Option<string> {
    if name.None? then None else Some(Trim(name.value))
  }

  function Normal(req: Create): Create {
    Create(Trim(req.project), NormalSources(req.sources), Trim(req.archive), req.profileId, NormalName(req.profileName))
  }

  lemma CanonicalSourceIsFaithful(a: Selection, b: Selection)
    requires CanonicalSource(a) == CanonicalSource(b)
    ensures Normalized(a) == Normalized(b)
  {
    var x, y := CanonicalSource(a).fields, CanonicalSource(b).fields;
    assert x["source_identifier"] == y["source_identifier"] && x["groups"] == y["groups"];
    assert a.groups.Some? <==> x["groups"].Arr?;
    assert b.groups.Some? <==> y["groups"].Arr?;
    if a.groups.Some? {
      var g, h := TrimAll(a.groups.value), TrimAll(b.groups.value);
      assert |g| == |h| by { assert |x["groups"].items| == |y["groups"].items|; }
      forall i | 0 <= i < |g| ensures g[i] == h[i] {
        assert x["groups"].items[i] == y["groups"].items[i];
      }
      assert g == h;
    }
  }

  /** The canonical form says neither less nor more than the trimmed request. */
  lemma CanonicalIsNormal(a: Create, b: Create)
    ensures Canonical(a) == Canonical(b) <==> Normal(a) == Normal(b)
  {
    if Canonical(a) == Canonical(b) {
      var x, y := Canonical(a).fields, Canonical(b).fields;
      assert x["project_module"] == y["project_module"] && x["archive_name"] == y["archive_name"];
      assert x["deployment_profile_id"] == y["deployment_profile_id"];
      assert x["deployment_profile_name"] == y["deployment_profile_name"];
      assert x["sources"].items == y["sources"].items;
      assert |a.sources| == |b.sources| by { assert |x["sources"].items| == |y["sources"].items|; }
      forall i | 0 <= i < |a.sources| ensures NormalSources(a.sources)[i] == NormalSources(b.sources)[i] {
        assert x["sources"].items[i] == y["sources"].items[i];
        CanonicalSourceIsFaithful(a.sources[i], b.sources[i]);
      }
      assert NormalSources(a.sources) == NormalSources(b.sources);
    }
    if Normal(a) == Normal(b) {
      SameSourcesSameForm(a.sources, b.sources);
      assert Canonical(a).fields["sources"].items == Canonical(b).fields["sources"].items;
    }
  }

  lemma SameSourcesSameForm(a: seq<Selection>, b: seq<Selection>)
    requires NormalSources(a) == NormalSources(b)
    ensures |a| == |b| && forall i | 0 <= i < |a| :: CanonicalSource(a[i]) == CanonicalSource(b[i])
  {
    assert |a| == |NormalSources(a)| == |b|;
    forall i | 0 <= i < |a| ensures CanonicalSource(a[i]) == CanonicalSource(b[i]) {
      assert Normalized(a[i]) == NormalSources(a)[i] == NormalSources(b)[i] == Normalized(b[i]);
    }
  }

  lemma NormalizedIsFixed(selection: Selection)
    ensures Normalized(Normalized(selection)) == Normalized(selection)
  {
    TrimIsIdempotent(selection.id);
    if selection.groups.Some? {
      var groups := TrimAll(selection.groups.value);
      forall i | 0 <= i < |groups| ensures TrimAll(groups)[i] == groups[i] {
        TrimIsIdempotent(selection.groups.value[i]);
      }
      assert TrimAll(groups) == groups;
    }
  }

  lemma {:induction false} ScanOfNormal(sources: seq<Selection>)
    ensures ScanSources(NormalSources(sources)) == ScanSources(sources)
  {
    if sources != [] {
      var front, last := sources[..|sources| - 1], sources[|sources| - 1];
      assert NormalSources(sources)[..|sources| - 1] == NormalSources(front);
      NormalizedIsFixed(last);
      ScanOfNormal(front);
    }
  }

  /** The decision only looks at the trimmed request, except that it echoes the project as given. */
  lemma DecisionOfNormal(t: Tables, req: Create)
    ensures Decision(t, req) == Decision(t, Normal(req)).(project := req.project)
  {
    TrimIsIdempotent(req.project);
    TrimIsIdempotent(req.archive);
    if req.profileName.Some? { TrimIsIdempotent(req.profileName.value); }
    ScanOfNormal(req.sources);
    assert NormalSources(req.sources) == [] <==> req.sources == [];
    assert ChosenProfile(t, Trim(req.project), req.profileId, req.profileName)
        == ChosenProfile(t, Trim(req.project), req.profileId, NormalName(req.profileName));
  }

  /** Requests that the idempotency hash does not tell apart are decided alike. */
  lemma EqualFormsAreDecidedAlike(t: Tables, a: Create, b: Create)
    requires Canonical(a) == Canonical(b)
    ensures Decision(t, a) == Decision(t, b).(project := a.project)
  {
    CanonicalIsNormal(a, b);
    DecisionOfNormal(t, a);
    DecisionOfNormal(t, b);
  }

  // ---------------------------------------------------------------- what is admitted

  predicate Distinct(texts: seq<string>) {
    forall i, j | 0 <= i < j < |texts| :: texts[i] != texts[j]
  }

  /** The names are as trimming leaves them. */
  predicate AllTrimmed(groups: Option<seq<string>>) {
    groups.Some? ==> forall g <- groups.value :: Trim(g) == g
  }

  predicate GroupsInOrder(groups: Option<seq<string>>) {
    groups.Some? ==> groups.value != [] && "" !in groups.value && Distinct(groups.value)
  }

  predicate SourcesInOrder(sources: seq<Selection>) {
    && (forall i | 0 <= i < |sources| :: Trim(sources[i].id) != "" && GroupsInOrder(TrimGroups(sources[i].groups)))
    && (forall i, j | 0 <= i < j < |sources| :: Trim(sources[i].id) != Trim(sources[j].id))
  }

  predicate ConfigInOrder(t: Tables, project: string, archive: string, sources: nat) {
    && project in t.active && t.active[project].config.Some?
    && var config := t.active[project].config.value;
    && config.faults == [] && config.id == project && archive in config.archives
    && (config.maxSources.Some? && config.maxSources.value > 0 ==> sources <= config.maxSources.value)
  }

  predicate ProfileInOrder(t: Tables, project: string, id: Option<string>, name: Option<string>) {
    && (id.None? || name.None?)
    && (id.Some? ==> id.value in t.profiles && Fits(t.profiles[id.value], project))
    && (name.Some? ==> Trim(name.value) != "" && Trim(name.value) in t.profilesByName
                       && Fits(t.profilesByName[Trim(name.value)], project))
    && (id.None? && name.None? ==> DefaultProfile(t, project).Some? && Fits(DefaultProfile(t, project).value, project))
  }

  predicate Fits(profile: Profile, project: string) {
    profile.sound && (profile.project.None? || profile.project.value == project)
  }

  /** The rows of one source, straight from the table. */
  function RowsFor(rows: seq<Row>, project: string, selection: Selection): seq<Row> {
    if rows == [] then []
    else
      var front, last := rows[..|rows| - 1], rows[|rows| - 1];
      RowsFor(front, project, selection) + (if last.project == project && Wanted(last, selection) then [last] else [])
  }

  // What it takes for a source to be ready, in terms of the tables.

  /** A row of the metadata table that belongs to the selected groups of a source. */
  predicate RowOf(row: Row, project: string, selection: Selection) {
    && row.project == project && row.source == selection.id
    && (selection.groups.Some? ==> row.group in selection.groups.value)
  }

  /** False, null, zero and anything empty or blank. */
  predicate IsFalsy(flag: Json) {
    || flag == Null || flag == Bool(false) || flag == Number(0) || flag == Arr([]) || flag == Obj(map[])
    || (flag.Str? && Blank(flag.s))
  }

  /** The metadata of a row have a discovery flag of this name, and it has not passed. */
  predicate FlagFails(row: Row, name: string) {
    && row.metadata.Some? && row.metadata.value.Obj? && "discovery_flags" in row.metadata.value.fields
    && var flags := row.metadata.value.fields["discovery_flags"];
       flags.Obj? && name in flags.fields && IsFalsy(flags.fields[name])
  }

  ghost predicate Passes(row: Row) {
    forall name :: !FlagFails(row, name)
  }

  /** Registered, enabled, checked, with a signature, and not being discovered at the moment. */
  predicate IsRegistered(t: Tables, project: string, id: string) {
    && (project, id) in t.registry
    && var r := t.registry[(project, id)];
       r.enabled && r.checked && r.signature.Some? && r.signature.value != "" && r.claim.None?
  }

  /** Nothing is wrong with a source: it is registered, has metadata, and all flags of it have passed. */
  ghost predicate IsReady(t: Tables, project: string, selection: Selection) {
    && IsRegistered(t, project, selection.id)
    && (exists row <- t.rows :: RowOf(row, project, selection))
    && (forall row <- t.rows :: RowOf(row, project, selection) ==> Passes(row))
  }

  /** The row is the first one of a source with a flag that has not passed. */
  ghost predicate FirstFailing(rows: seq<Row>, project: string, selection: Selection, i: nat) {
    && i < |rows| && RowOf(rows[i], project, selection) && !Passes(rows[i])
    && forall j | 0 <= j < i :: RowOf(rows[j], project, selection) ==> Passes(rows[j])
  }

  /** Why a source is not ready: the first thing that is missing, in this order. */
  ghost predicate Lacks(t: Tables, project: string, selection: Selection, reason: NotReady) {
    var there := (project, selection.id) in t.registry;
    match reason
    case NotRegistered => !there
    case Disabled => there && !t.registry[(project, selection.id)].enabled
    case NeverChecked => there && var r := t.registry[(project, selection.id)]; r.enabled && !r.checked
    case NoSignature => there && var r := t.registry[(project, selection.id)];
      r.enabled && r.checked && (r.signature.None? || r.signature.value == "")
    case Claimed => there && var r := t.registry[(project, selection.id)];
      r.enabled && r.checked && r.signature.Some? && r.signature.value != "" && r.claim.Some?
    case NoMetadata =>
      IsRegistered(t, project, selection.id) && forall row <- t.rows :: !RowOf(row, project, selection)
    case FlagsFailed(names) =>
      && IsRegistered(t, project, selection.id)
      && exists i: nat :: FirstFailing(t.rows, project, selection, i) && Failing(t.rows[i], names)
  }

  lemma FailedFlagsFail(row: Row)
    ensures forall name :: name in FailedFlags(row) <==> FlagFails(row, name)
    ensures FailedFlags(row) == {} <==> Passes(row)
  {
    forall name ensures name in FailedFlags(row) <==> FlagFails(row, name) {
      if name in FailedFlags(row) || FlagFails(row, name) {
        var flag := row.metadata.value.fields["discovery_flags"].fields[name];
        if flag.Str? { TrimsToNothing(flag.s); }
      }
    }
  }

  lemma {:induction false} FlagErrorOfMore(rows: seq<Row>, row: Row)
    ensures FlagError(rows + [row]) ==
      if FlagError(rows).Some? then FlagError(rows)
      else if Passes(row) then None else Some(FlagsFailed(FailedFlags(row)))
  {
    FailedFlagsFail(row);
    if rows == [] {
      assert (rows + [row])[1..] == [];
    } else {
      assert (rows + [row])[1..] == rows[1..] + [row];
      FlagErrorOfMore(rows[1..], row);
    }
  }

  /** What the walk over the rows of a source finds, in terms of the table. */
  ghost predicate Finds(rows: seq<Row>, project: string, selection: Selection, error: Option<NotReady>) {
    if error.None? then forall i | 0 <= i < |rows| :: RowOf(rows[i], project, selection) ==> Passes(rows[i])
    else exists i: nat :: FirstFailing(rows, project, selection, i) && error == Some(FlagsFailed(FailedFlags(rows[i])))
  }

  lemma FindsInMore(front: seq<Row>, last: Row, project: string, selection: Selection, error: Option<NotReady>)
    requires Finds(front, project, selection, error)
    ensures Finds(front + [last], project, selection,
      if error.Some? then error
      else if RowOf(last, project, selection) && !Passes(last) then Some(FlagsFailed(FailedFlags(last)))
      else None)
  {
    var rows := front + [last];
    assert forall i | 0 <= i < |front| :: rows[i] == front[i];
    if error.Some? {
      var i: nat :| FirstFailing(front, project, selection, i) && error == Some(FlagsFailed(FailedFlags(front[i])));
      assert FirstFailing(rows, project, selection, i);
    } else if RowOf(last, project, selection) && !Passes(last) {
      assert FirstFailing(rows, project, selection, |front|);
    }
  }

  lemma {:induction false} FlagErrorFinds(rows: seq<Row>, project: string, selection: Selection)
    ensures Finds(rows, project, selection, FlagError(RowsFor(rows, project, selection)))
  {
    if rows != [] {
      var front, last := rows[..|rows| - 1], rows[|rows| - 1];
      var found := RowsFor(front, project, selection);
      FlagErrorFinds(front, project, selection);
      FindsInMore(front, last, project, selection, FlagError(found));
      FlagErrorOfMore(found, last);
      assert rows == front + [last];
      assert RowsFor(rows, project, selection) == if RowOf(last, project, selection) then found + [last] else found;
    }
  }

  ghost predicate NoRowOf(rows: seq<Row>, project: string, selection: Selection) {
    forall row <- rows :: !RowOf(row, project, selection)
  }

  lemma NoRowInMore(front: seq<Row>, last: Row, project: string, selection: Selection)
    ensures NoRowOf(front + [last], project, selection) <==>
            NoRowOf(front, project, selection) && !RowOf(last, project, selection)
  {
    assert forall row :: row in front + [last] <==> row in front || row == last;
  }

  lemma {:induction false} NoRowsFor(rows: seq<Row>, project: string, selection: Selection)
    ensures RowsFor(rows, project, selection) == [] <==> NoRowOf(rows, project, selection)
  {
    if rows != [] {
      var front, last := rows[..|rows| - 1], rows[|rows| - 1];
      NoRowsFor(front, project, selection);
      NoRowInMore(front, last, project, selection);
      assert rows == front + [last];
    }
  }

  lemma FlagsFailedExactly(rows: seq<Row>, project: string, selection: Selection, names: set<string>)
    ensures FlagError(RowsFor(rows, project, selection)) == Some(FlagsFailed(names)) <==>
      exists i: nat :: FirstFailing(rows, project, selection, i) && Failing(rows[i], names)
  {
    var error := FlagError(RowsFor(rows, project, selection));
    FlagErrorFinds(rows, project, selection);
    if error.Some? {
      var i: nat :| FirstFailing(rows, project, selection, i) && error == Some(FlagsFailed(FailedFlags(rows[i])));
      FailedFlagsFail(rows[i]);
      assert Failing(rows[i], names) <==> names == FailedFlags(rows[i]);
      forall j: nat | FirstFailing(rows, project, selection, j) ensures j == i {}
    }
  }

  /** These flags of a row, and no others, have not passed. */
  ghost predicate Failing(row: Row, names: set<string>) {
    forall name :: name in names <==> FlagFails(row, name)
  }

  lemma ErrorOfRegistered(t: Tables, project: string, selection: Selection, rows: seq<Row>)
    requires IsRegistered(t, project, selection.id)
    ensures ReadinessError(RegisteredIn(t, project, selection.id), rows)
         == if rows == [] then Some(NoMetadata) else FlagError(rows)
  {
  }

  lemma ErrorOfUnregistered(t: Tables, project: string, selection: Selection, rows: seq<Row>, reason: NotReady)
    requires !IsRegistered(t, project, selection.id)
    ensures var error := ReadinessError(RegisteredIn(t, project, selection.id), rows);
            error.Some? && (error == Some(reason) <==> Lacks(t, project, selection, reason))
  {
  }

  /** A source is not ready for a reason exactly if it lacks that, and ready exactly if it lacks nothing. */
  lemma ReadinessErrorExactly(t: Tables, project: string, selection: Selection, reason: NotReady)
    ensures var error := ReadinessError(RegisteredIn(t, project, selection.id), RowsFor(t.rows, project, selection));
      && (error == Some(reason) <==> Lacks(t, project, selection, reason))
      && (error.None? <==> IsReady(t, project, selection))
  {
    var rows := RowsFor(t.rows, project, selection);
    if IsRegistered(t, project, selection.id) {
      ErrorOfRegistered(t, project, selection, rows);
      NoRowsFor(t.rows, project, selection);
      FlagErrorsOnly(rows);
      FirstExists(t.rows, project, selection);
      if reason.FlagsFailed? { FlagsFailedExactly(t.rows, project, selection, reason.keys); }
    } else {
      ErrorOfUnregistered(t, project, selection, rows, reason);
    }
  }

  lemma {:induction false} FlagErrorsOnly(rows: seq<Row>)
    ensures FlagError(rows).Some? ==> rows != [] && FlagError(rows).value.FlagsFailed?
  {
    if rows != [] { FlagErrorsOnly(rows[1..]); }
  }

  lemma FirstExists(rows: seq<Row>, project: string, selection: Selection)
    ensures FlagError(RowsFor(rows, project, selection)).None? <==>
            forall row <- rows :: RowOf(row, project, selection) ==> Passes(row)
  {
    FlagErrorFinds(rows, project, selection);
  }

  lemma {:induction false} DiscoveredInTable(rows: seq<Row>, project: string, selection: Selection, group: string)
    requires selection.groups.Some? ==> group in selection.groups.value
    ensures Discovered(RowsFor(rows, project, selection), group) <==>
            exists row <- rows :: row.project == project && row.source == selection.id && row.group == group
  {
    if rows != [] {
      var front, last := rows[..|rows| - 1], rows[|rows| - 1];
      DiscoveredInTable(front, project, selection, group);
      assert rows == front + [last];
    }
  }

  /** The source is ready, and each of its selected groups has metadata. */
  ghost predicate SourceInOrder(t: Tables, project: string, selection: Selection) {
    && IsReady(t, project, selection)
    && (selection.groups.Some? ==>
          forall group <- selection.groups.value ::
            exists row <- t.rows :: row.project == project && row.source == selection.id && row.group == group)
  }

  /** What has to hold of a request, without any order of checking. */
  ghost predicate Admissible(t: Tables, req: Create) {
    var project, archive := Trim(req.project), Trim(req.archive);
    && project != "" && archive != "" && req.sources != []
    && SourcesInOrder(req.sources)
    && ConfigInOrder(t, project, archive, |req.sources|)
    && ProfileInOrder(t, project, req.profileId, req.profileName)
    && AllInOrder(t, project, NormalSources(req.sources))
  }

  lemma {:induction false} ElementsOfDistinct(texts: seq<string>)
    ensures |Elements(texts)| <= |texts|
    ensures |Elements(texts)| == |texts| <==> Distinct(texts)
  {
    if texts != [] {
      var rest := texts[1..];
      ElementsOfDistinct(rest);
      assert Elements(texts) == Elements(rest) + {texts[0]};
      if texts[0] in rest {
        assert Elements(texts) == Elements(rest);
        var k :| 0 <= k < |rest| && rest[k] == texts[0];
        assert texts[0] == texts[k + 1];
      } else {
        assert texts[0] !in Elements(rest);
        assert Distinct(texts) <==> Distinct(rest) by {
          if Distinct(rest) {
            forall i, j | 0 <= i < j < |texts| ensures texts[i] != texts[j] {
              assert texts[j] == rest[j - 1] && (i > 0 ==> texts[i] == rest[i - 1]);
            }
          }
          if Distinct(texts) {
            forall i, j | 0 <= i < j < |rest| ensures rest[i] != rest[j] {
              assert rest[i] == texts[i + 1] && rest[j] == texts[j + 1];
            }
          }
        }
      }
    }
  }

  /** The complaints about trimmed groups, and what each of them says. */
  lemma GroupErrorsMean(index: nat, groups: Option<seq<string>>)
    ensures AllTrimmed(groups) ==>
      && (GroupErrors(index, groups) == [] <==> GroupsInOrder(groups))
      && (GroupsEmpty(index) in GroupErrors(index, groups) <==> groups.Some? && (groups.value == [] || "" in groups.value))
      && (GroupsTwice(index) in GroupErrors(index, groups) <==> groups.Some? && !Distinct(groups.value))
  {
    if groups.Some? && AllTrimmed(groups) {
      ElementsOfDistinct(groups.value);
      assert (exists g <- groups.value :: Trim(g) == "") <==> "" in groups.value;
    }
  }

  lemma NoGroupErrors(index: nat, groups: Option<seq<string>>)
    ensures GroupErrors(index, TrimGroups(groups)) == [] <==> GroupsInOrder(TrimGroups(groups))
  {
    if groups.Some? {
      var trimmed := TrimAll(groups.value);
      forall g <- trimmed ensures Trim(g) == g {
        var i :| 0 <= i < |trimmed| && trimmed[i] == g;
        TrimIsIdempotent(groups.value[i]);
      }
    }
    GroupErrorsMean(index, TrimGroups(groups));
  }

  /** The scan finds no error exactly for sources in order, and then keeps them all. */
  ghost predicate ScanIsRight(sources: seq<Selection>) {
    && (ScanSources(sources).0 == [] <==> SourcesInOrder(sources))
    && (ScanSources(sources).0 == [] ==> ScanSources(sources).1 == NormalSources(sources))
  }

  lemma {:induction false} NoScanErrors(sources: seq<Selection>)
    ensures ScanIsRight(sources)
  {
    if sources != [] {
      var front, last := sources[..|sources| - 1], sources[|sources| - 1];
      assert sources == front + [last];
      NoScanErrors(front);
      RightForOneMore(front, last);
    }
  }

  lemma RightForOneMore(front: seq<Selection>, last: Selection)
    requires ScanIsRight(front)
    ensures ScanIsRight(front + [last])
  {
    var scan := ScanSources(front);
    assert (front + [last])[..|front|] == front;
    assert ScanSources(front + [last]) == (scan.0 + ScanErrors(scan.1, |front|, last), scan.1 + KeptOf(scan.1, last));
    NoErrorInOneMore(front, last);
    if scan.0 != [] { assert !SourcesInOrder(front + [last]); }
  }

  lemma NoErrorInOneMore(front: seq<Selection>, last: Selection)
    ensures var kept := NormalSources(front);
            && (SourcesInOrder(front) && ScanErrors(kept, |front|, last) == [] <==> SourcesInOrder(front + [last]))
            && (ScanErrors(kept, |front|, last) == [] ==> kept + KeptOf(kept, last) == NormalSources(front + [last]))
  {
    NoGroupErrors(|front|, last.groups);
    SourcesInOrderOfOneMore(front, last);
    RepeatedIsSeen(front, Trim(last.id));
    assert NormalSources(front + [last]) == NormalSources(front) + [Normalized(last)];
  }

  predicate Repeated(sources: seq<Selection>, id: string) {
    exists i | 0 <= i < |sources| :: Trim(sources[i].id) == id
  }

  lemma RepeatedIsSeen(sources: seq<Selection>, id: string)
    ensures Repeated(sources, id) <==> id in Ids(NormalSources(sources))
  {
    var ids := Ids(NormalSources(sources));
    assert forall i | 0 <= i < |sources| :: ids[i] == Trim(sources[i].id);
  }

  lemma SourcesInOrderOfOneMore(front: seq<Selection>, last: Selection)
    ensures SourcesInOrder(front + [last]) <==>
            && SourcesInOrder(front)
            && Trim(last.id) != "" && GroupsInOrder(TrimGroups(last.groups))
            && !Repeated(front, Trim(last.id))
  {
    var sources := front + [last];
    assert forall i | 0 <= i < |front| :: sources[i] == front[i];
    assert sources[|front|] == last;
  }

  lemma MatchingOfOneMore(rows: seq<Row>, row: Row, selection: Selection)
    ensures Matching(rows + [row], selection) == Matching(rows, selection) + (if Wanted(row, selection) then [row] else [])
  {
    assert (rows + [row])[..|rows|] == rows;
  }

  lemma {:induction false} FetchingFirst(rows: seq<Row>, project: string, ids: seq<string>, selection: Selection)
    requires selection.id in ids
    ensures Matching(Fetched(rows, project, ids), selection) == RowsFor(rows, project, selection)
  {
    if rows != [] {
      var front, last := rows[..|rows| - 1], rows[|rows| - 1];
      FetchingFirst(front, project, ids, selection);
      MatchingOfOneMore(Fetched(front, project, ids), last, selection);
      assert Fetched(front, project, ids) + [] == Fetched(front, project, ids);
    }
  }

  lemma {:induction false} NoMissingGroups(id: string, groups: seq<string>, rows: seq<Row>)
    ensures MissingGroups(id, groups, rows) == [] <==> forall group <- groups :: Discovered(rows, group)
  {
    if groups != [] {
      var front, last := groups[..|groups| - 1], groups[|groups| - 1];
      NoMissingGroups(id, front, rows);
      assert forall group :: group in groups <==> group in front || group == last by {
        assert groups == front + [last];
      }
    }
  }

  /** The previews that belong to sources in order. */
  function PreviewFor(t: Tables, project: string, selection: Selection): Preview {
    var rows := RowsFor(t.rows, project, selection);
    Preview(selection.id, |rows|, RecordsOf(rows))
  }

  ghost predicate AllInOrder(t: Tables, project: string, kept: seq<Selection>) {
    forall i | 0 <= i < |kept| :: SourceInOrder(t, project, kept[i])
  }

  lemma AllInOrderOfOneMore(t: Tables, project: string, front: seq<Selection>, last: Selection)
    ensures AllInOrder(t, project, front + [last]) <==> AllInOrder(t, project, front) && SourceInOrder(t, project, last)
  {
    var kept := front + [last];
    assert kept[|front|] == last;
    assert forall i | 0 <= i < |front| :: kept[i] == front[i];
  }

  /** Previews of these sources, one for each. */
  ghost predicate ArePreviews(t: Tables, project: string, kept: seq<Selection>, previews: seq<Preview>) {
    |previews| == |kept| && forall i | 0 <= i < |kept| :: previews[i] == PreviewFor(t, project, kept[i])
  }

  lemma PreviewsOfMore(t: Tables, project: string, front: seq<Selection>, last: Selection, previews: seq<Preview>)
    requires ArePreviews(t, project, front, previews)
    ensures ArePreviews(t, project, front + [last], previews + [PreviewFor(t, project, last)])
  {
  }

  lemma InspectOfMore(t: Tables, project: string, front: seq<Selection>, last: Selection, fetched: seq<Row>)
    ensures var before, rows := Inspect(t, project, front, fetched), Matching(fetched, last);
      Inspect(t, project, front + [last], fetched)
      == (before.0 + SourceErrors(t, project, last, rows), before.1 + PreviewOf(t, project, last, rows))
  {
    assert (front + [last])[..|front|] == front;
  }

  lemma {:induction false} NoInspectErrors(t: Tables, project: string, kept: seq<Selection>, ids: seq<string>)
    requires forall i | 0 <= i < |kept| :: kept[i].id in ids
    ensures var (errors, previews) := Inspect(t, project, kept, Fetched(t.rows, project, ids));
            && (errors == [] <==> AllInOrder(t, project, kept))
            && (errors == [] ==> ArePreviews(t, project, kept, previews))
  {
    if kept != [] {
      var front, last := kept[..|kept| - 1], kept[|kept| - 1];
      assert front + [last] == kept;
      NoInspectErrors(t, project, front, ids);
      NoErrorInSource(t, project, last, ids);
      AllInOrderOfOneMore(t, project, front, last);
      InspectOfMore(t, project, front, last, Fetched(t.rows, project, ids));
      var before := Inspect(t, project, front, Fetched(t.rows, project, ids));
      if before.0 == [] { PreviewsOfMore(t, project, front, last, before.1); }
    }
  }

  lemma NoErrorInSource(t: Tables, project: string, selection: Selection, ids: seq<string>)
    requires selection.id in ids
    ensures var rows := Matching(Fetched(t.rows, project, ids), selection);
            && (SourceErrors(t, project, selection, rows) == [] <==> SourceInOrder(t, project, selection))
            && (SourceErrors(t, project, selection, rows) == [] ==>
                  PreviewOf(t, project, selection, rows) == [PreviewFor(t, project, selection)])
  {
    FetchingFirst(t.rows, project, ids, selection);
    ReadinessErrorExactly(t, project, selection, Disabled);
    if selection.groups.Some? {
      NoMissingGroups(selection.id, selection.groups.value, RowsFor(t.rows, project, selection));
      forall group <- selection.groups.value
        ensures Discovered(RowsFor(t.rows, project, selection), group) <==>
                exists row <- t.rows :: row.project == project && row.source == selection.id && row.group == group
      {
        DiscoveredInTable(t.rows, project, selection, group);
      }
    }
  }

  lemma {:induction false} MissingGroupsAre(id: string, groups: seq<string>, rows: seq<Row>, e: Error)
    ensures e in MissingGroups(id, groups, rows) <==>
            e.GroupUndiscovered? && e.source == id && e.group in groups && !Discovered(rows, e.group)
  {
    if groups != [] {
      var front, last := groups[..|groups| - 1], groups[|groups| - 1];
      MissingGroupsAre(id, front, rows, e);
      assert groups == front + [last];
    }
  }

  /** The errors of one source, out of its rows in the table. */
  lemma SourceErrorsMean(t: Tables, project: string, selection: Selection)
    ensures var rows := RowsFor(t.rows, project, selection);
            var errors := SourceErrors(t, project, selection, rows);
      && (errors == [] <==> SourceInOrder(t, project, selection))
      && (PreviewOf(t, project, selection, rows) != [] <==> IsReady(t, project, selection))
      && forall reason :: SourceNotReady(selection.id, reason) in errors <==> Lacks(t, project, selection, reason)
  {
    NoErrorInSource(t, project, selection, [selection.id]);
    FetchingFirst(t.rows, project, [selection.id], selection);
    var rows := RowsFor(t.rows, project, selection);
    forall reason ensures SourceNotReady(selection.id, reason) in SourceErrors(t, project, selection, rows)
                     <==> Lacks(t, project, selection, reason) {
      ReadinessErrorExactly(t, project, selection, reason);
      if selection.groups.Some? {
        MissingGroupsAre(selection.id, selection.groups.value, rows, SourceNotReady(selection.id, reason));
      }
    }
    ReadinessErrorExactly(t, project, selection, Disabled);
  }

  /** The error list is empty exactly for admissible requests. */
  lemma ValidExactlyWhenAdmissible(t: Tables, req: Create)
    ensures Decision(t, req).errors == [] <==> Admissible(t, req)
  {
    var project, archive := Trim(req.project), Trim(req.archive);
    var scan := ScanSources(req.sources);
    var choice := ChosenProfile(t, project, req.profileId, req.profileName);
    NoErrorAtAll(HeadErrors(project, archive, req.sources == []), scan.0, ConfigErrors(t, project, archive, |scan.1|),
                 choice.1, ProfileErrors(choice.0, project),
                 Inspect(t, project, scan.1, Fetched(t.rows, project, Ids(scan.1))).0);
    NoSourceErrors(t, project, req.sources);
    if project != "" { ProfileErrorsExactly(t, project, req.profileId, req.profileName); }
    if project != "" && archive != "" { ConfigErrorsExactly(t, project, archive, |scan.1|); }
  }

  /** The errors of both loops, together. */
  lemma NoSourceErrors(t: Tables, project: string, sources: seq<Selection>)
    ensures var scan := ScanSources(sources);
            var inspected := Inspect(t, project, scan.1, Fetched(t.rows, project, Ids(scan.1)));
            && (scan.0 == [] <==> SourcesInOrder(sources))
            && (scan.0 == [] ==> scan.1 == NormalSources(sources))
            && (scan.0 == [] ==>
                  (inspected.0 == [] <==> AllInOrder(t, project, NormalSources(sources))))
            && (scan.0 == [] && inspected.0 == [] ==>
                  && |inspected.1| == |sources|
                  && forall i | 0 <= i < |sources| :: inspected.1[i] == PreviewFor(t, project, NormalSources(sources)[i]))
  {
    var scan := ScanSources(sources);
    NoScanErrors(sources);
    NoInspectErrors(t, project, scan.1, Ids(scan.1));
  }

  lemma NoErrorAtAll(a: seq<Error>, b: seq<Error>, c: seq<Error>, d: seq<Error>, e: seq<Error>, f: seq<Error>)
    ensures a + b + c + d + e + f == [] <==> a == [] && b == [] && c == [] && d + e == [] && f == []
  {
    assert |a + b + c + d + e + f| == |a| + |b| + |c| + |d| + |e| + |f|;
    assert |d + e| == |d| + |e|;
  }

  lemma ConfigErrorsExactly(t: Tables, project: string, archive: string, sources: nat)
    requires project != "" && archive != ""
    ensures ConfigErrors(t, project, archive, sources) == [] <==> ConfigInOrder(t, project, archive, sources)
  {
  }

  lemma ProfileErrorsExactly(t: Tables, project: string, id: Option<string>, name: Option<string>)
    requires project != ""
    ensures var (profile, errors) := ChosenProfile(t, project, id, name);
            errors + ProfileErrors(profile, project) == [] <==> ProfileInOrder(t, project, id, name)
  {
  }

  /**
   An admitted request has at least one source, no source twice, and one preview for each source
   in the order of the request; the total is the sum of the previews.
   */
  lemma AdmittedSources(t: Tables, req: Create)
    ensures var d := Decision(t, req); d.errors == [] ==>
            && |d.sources| == |req.sources| == |d.previews| > 0
            && (forall i | 0 <= i < |d.sources| :: d.sources[i] == Normalized(req.sources[i]))
            && (forall i | 0 <= i < |d.sources| :: d.previews[i] == PreviewFor(t, Trim(req.project), d.sources[i]))
            && (forall i, j | 0 <= i < j < |d.sources| :: d.sources[i].id != d.sources[j].id)
            && d.totalRecords == TotalRecords(d.previews)
  {
    ValidExactlyWhenAdmissible(t, req);
    NoSourceErrors(t, Trim(req.project), req.sources);
  }

  /** The pinned configuration is the active one of the project and permits the sources; the profile is the one asked for. */
  lemma AdmittedContext(t: Tables, req: Create)
    ensures var project, d := Trim(req.project), Decision(t, req); d.errors == [] ==>
            && project in t.active && d.config == Some(t.active[project].uuid) && t.active[project].config.Some?
            && (var limit := SourceLimit(t.active[project].config.value);
                limit.Some? ==> |d.sources| <= limit.value)
            && d.profile == Some(
                 if req.profileId.Some? then t.profiles[req.profileId.value].uuid
                 else if req.profileName.Some? then t.profilesByName[Trim(req.profileName.value)].uuid
                 else DefaultProfile(t, project).value.uuid)
  {
    ValidExactlyWhenAdmissible(t, req);
    NoSourceErrors(t, Trim(req.project), req.sources);
  }
}
