/**
 What each complaint about a new execution means: the exact condition under which it is made, in
 terms of the request and the tables, apart from the order in which the checks are carried out.
 */
module AdmissionErrors {
  import opened Admission
  import opened Json
  import opened Options
  import opened Text

  // ---------------------------------------------------------------- the conditions

  predicate HeadComplaint(req: Create, e: Error) {
    match e
    case ProjectEmpty => Trim(req.project) == ""
    case ArchiveEmpty => Trim(req.archive) == ""
    case NoSources => req.sources == []
    case _ => false
  }

  /** The first selection of a source that has a name. */
  predicate IsKept(sources: seq<Selection>, i: nat) {
    && i < |sources| && Trim(sources[i].id) != ""
    && forall j | 0 <= j < i :: Trim(sources[j].id) != Trim(sources[i].id)
  }

  predicate ScanComplaint(sources: seq<Selection>, e: Error) {
    match e
    case SourceEmpty(i) => i < |sources| && Trim(sources[i].id) == ""
    case SourceTwice(id) =>
      id != "" && exists j | 0 <= j < |sources| :: Trim(sources[j].id) == id && Repeated(sources[..j], id)
    case GroupsEmpty(i) =>
      IsKept(sources, i) && sources[i].groups.Some? && (sources[i].groups.value == [] || "" in TrimAll(sources[i].groups.value))
    case GroupsTwice(i) =>
      IsKept(sources, i) && sources[i].groups.Some? && !Distinct(TrimAll(sources[i].groups.value))
    case _ => false
  }

  /** The names of the sources of a request. */
  function Named(sources: seq<Selection>): set<string> {
    (set i | 0 <= i < |sources| :: Trim(sources[i].id)) - {""}
  }

  predicate ConfigComplaint(t: Tables, project: string, archive: string, received: nat, e: Error) {
    var readable := project in t.active && t.active[project].config.Some?;
    match e
    case NoConfig(p) => p == project != "" && project !in t.active
    case ConfigUnreadable => project != "" && project in t.active && t.active[project].config.None?
    case ConfigInvalid(faults) => project != "" && readable &&
      var all := t.active[project].config.value.faults;
      all != [] && faults == all[..if |all| < 3 then |all| else 3]
    case ConfigOfOther(id, p) =>
      p == project != "" && readable && id == t.active[project].config.value.id != project
    case ArchiveDisabled(a, p) =>
      p == project != "" && a == archive != "" && readable && archive !in t.active[project].config.value.archives
    case TooManySources(p, limit, n) =>
      p == project != "" && readable && t.active[project].config.value.maxSources == Some(limit)
      && n == received > limit > 0
    case _ => false
  }

  /** The profile that a request asks for, by id or by name, or the default one. */
  predicate AsksFor(t: Tables, req: Create, profile: Profile) {
    match (req.profileId, req.profileName)
    case (Some(id), None) => id in t.profiles && t.profiles[id] == profile
    case (None, Some(name)) => Trim(name) != "" && Trim(name) in t.profilesByName && t.profilesByName[Trim(name)] == profile
    case (None, None) =>
      && Trim(req.project) != ""
      && (if Trim(req.project) in t.defaults then t.defaults[Trim(req.project)] == profile
          else t.globalDefault == Some(profile))
    case (Some(_), Some(_)) => false
  }

  ghost predicate ProfileComplaint(t: Tables, req: Create, e: Error) {
    var project := Trim(req.project);
    match e
    case TwoProfiles => req.profileId.Some? && req.profileName.Some?
    case ProfileIdUnknown(id) => req.profileId == Some(id) && req.profileName.None? && id !in t.profiles
    case ProfileNameEmpty => req.profileId.None? && req.profileName.Some? && Trim(req.profileName.value) == ""
    case ProfileNameUnknown(name) =>
      req.profileId.None? && req.profileName.Some? && name == Trim(req.profileName.value) != "" && name !in t.profilesByName
    case NoDefaultProfile(p) =>
      && req.profileId.None? && req.profileName.None?
      && p == project != "" && project !in t.defaults && t.globalDefault.None?
    case ProfileOfOther(name, other) =>
      exists profile :: AsksFor(t, req, profile) && name == profile.name && profile.project == Some(other) && other != project
    case ProfileInvalid(name) => exists profile :: AsksFor(t, req, profile) && name == profile.name && !profile.sound
    case _ => false
  }

  /** A complaint about one normalised source, out of the tables. */
  ghost predicate ComplaintAbout(t: Tables, project: string, s: Selection, e: Error) {
    if e.GroupUndiscovered? then
      && e.source == s.id && s.groups.Some? && e.group in s.groups.value
      && forall row <- t.rows :: !(row.project == project && row.source == s.id && row.group == e.group)
    else e.SourceNotReady? && e.source == s.id && Lacks(t, project, s, e.reason)
  }

  ghost predicate SourceComplaint(t: Tables, req: Create, e: Error) {
    exists i: nat :: IsKept(req.sources, i) && ComplaintAbout(t, Trim(req.project), Normalized(req.sources[i]), e)
  }

  /** When a complaint is made. */
  ghost predicate Complains(t: Tables, req: Create, e: Error) {
    || HeadComplaint(req, e)
    || ScanComplaint(req.sources, e)
    || ConfigComplaint(t, Trim(req.project), Trim(req.archive), |Named(req.sources)|, e)
    || ProfileComplaint(t, req, e)
    || SourceComplaint(t, req, e)
  }

  // ---------------------------------------------------------------- the scan

  lemma KeptFrontOrLast(sources: seq<Selection>, i: nat)
    requires sources != [] && i < |sources|
    ensures var n := |sources| - 1;
            IsKept(sources, i) <==> if i < n then IsKept(sources[..n], i)
                                    else Trim(sources[n].id) != "" && !Repeated(sources[..n], Trim(sources[n].id))
  {
  }

  lemma RepeatedInMore(front: seq<Selection>, last: Selection, id: string)
    ensures Repeated(front + [last], id) <==> Repeated(front, id) || Trim(last.id) == id
  {
    var sources := front + [last];
    assert forall i | 0 <= i < |front| :: sources[i] == front[i];
    assert sources[|front|] == last;
  }

  lemma NamedAre(sources: seq<Selection>, id: string)
    ensures id in Named(sources) <==> id != "" && Repeated(sources, id)
  {
  }

  lemma NamedInMore(front: seq<Selection>, last: Selection)
    ensures var id := Trim(last.id);
      |Named(front + [last])| == |Named(front)| + (if id == "" || Repeated(front, id) then 0 else 1)
  {
    var id := Trim(last.id);
    forall x ensures x in Named(front + [last]) <==> x in Named(front) || (x == id && id != "") {
      RepeatedInMore(front, last, x);
      NamedAre(front, x);
      NamedAre(front + [last], x);
    }
    NamedAre(front, id);
    SizeOfMore(Named(front), Named(front + [last]), id, id == "" || Repeated(front, id));
  }

  lemma SizeOfMore(a: set<string>, b: set<string>, id: string, known: bool)
    requires forall x :: x in b <==> x in a || (x == id && id != "")
    requires known <==> id == "" || id in a
    ensures |b| == |a| + (if known then 0 else 1)
  {
    if known { assert a == b; } else { assert b == a + {id}; }
  }

  /** The scan keeps the sources under their names. */
  lemma {:induction false} ScanNames(sources: seq<Selection>, id: string)
    ensures id in Ids(ScanSources(sources).1) <==> id != "" && Repeated(sources, id)
  {
    if sources != [] {
      var front, last := sources[..|sources| - 1], sources[|sources| - 1];
      var kept, more := ScanSources(front).1, KeptOf(ScanSources(front).1, last);
      ScanNames(front, id);
      ScanNames(front, Trim(last.id));
      RepeatedInMore(front, last, id);
      assert front + [last] == sources;
      IdsOfMore(kept, more);
      assert Ids(more) == if more == [] then [] else [Trim(last.id)];
    }
  }

  lemma NothingNamed(sources: seq<Selection>)
    requires sources == []
    ensures Named(sources) == {}
  {
  }

  lemma ScanOneMore(sources: seq<Selection>)
    requires sources != []
    ensures var front, last := sources[..|sources| - 1], sources[|sources| - 1];
      && front + [last] == sources
      && |ScanSources(sources).1| == |ScanSources(front).1|
         + (if Trim(last.id) == "" || Trim(last.id) in Ids(ScanSources(front).1) then 0 else 1)
  {
  }

  /** The scan keeps as many sources as are named. */
  lemma {:induction false} ScanCounts(sources: seq<Selection>)
    ensures |ScanSources(sources).1| == |Named(sources)|
  {
    if sources == [] {
      NothingNamed(sources);
    } else {
      var front, last := sources[..|sources| - 1], sources[|sources| - 1];
      ScanCounts(front);
      ScanNames(front, Trim(last.id));
      NamedInMore(front, last);
      ScanOneMore(sources);
    }
  }

  lemma IdsOfMore(kept: seq<Selection>, more: seq<Selection>)
    ensures Ids(kept + more) == Ids(kept) + Ids(more)
  {
  }

  /** The scan keeps the first selection of each source, trimmed. */
  lemma {:induction false} ScanKeeps(sources: seq<Selection>, selection: Selection)
    ensures selection in ScanSources(sources).1 <==>
            exists i: nat :: IsKept(sources, i) && Normalized(sources[i]) == selection
  {
    if sources != [] {
      var n := |sources| - 1;
      var front, last := sources[..n], sources[n];
      ScanKeeps(front, selection);
      ScanNames(front, Trim(last.id));
      var kept, more := ScanSources(front).1, KeptOf(ScanSources(front).1, last);
      forall i: nat | i <= n ensures IsKept(sources, i) <==> if i < n then IsKept(front, i) else more != [] {
        KeptFrontOrLast(sources, i);
      }
      SelectionInMore(sources, n, front, kept, more, selection);
    }
  }

  lemma SelectionInMore(sources: seq<Selection>, n: nat, front: seq<Selection>, kept: seq<Selection>,
                        more: seq<Selection>, selection: Selection)
    requires n == |front| && |sources| == n + 1 && sources[..n] == front
    requires more == [] || more == [Normalized(sources[n])]
    requires selection in kept <==> exists i: nat :: IsKept(front, i) && Normalized(front[i]) == selection
    requires forall i: nat | i <= n :: IsKept(sources, i) <==> if i < n then IsKept(front, i) else more != []
    ensures selection in kept + more <==> exists i: nat :: IsKept(sources, i) && Normalized(sources[i]) == selection
  {
    if i: nat :| IsKept(front, i) && Normalized(front[i]) == selection { assert IsKept(sources, i); }
    if selection in more { assert IsKept(sources, n); }
    if i: nat :| IsKept(sources, i) && Normalized(sources[i]) == selection {
      if i < n { assert IsKept(front, i); }
    }
  }

  /** The complaints of the scan are those about its sources. */
  lemma {:induction false} ScanComplains(sources: seq<Selection>, e: Error)
    ensures e in ScanSources(sources).0 <==> ScanComplaint(sources, e)
  {
    if sources != [] {
      var n := |sources| - 1;
      var front, last := sources[..n], sources[n];
      ScanComplains(front, e);
      ScanNames(front, Trim(last.id));
      LastComplains(front, ScanSources(front).1, last, e);
      ComplaintInMore(sources, n, e);
    }
  }

  /** The complaints about the last one of some sources. */
  predicate LastComplaint(front: seq<Selection>, last: Selection, e: Error) {
    var id, n := Trim(last.id), |front|;
    var first := id != "" && !Repeated(front, id);
    match e
    case SourceEmpty(i) => i == n && id == ""
    case SourceTwice(x) => x == id != "" && Repeated(front, id)
    case GroupsEmpty(i) =>
      i == n && first && last.groups.Some? && (last.groups.value == [] || "" in TrimAll(last.groups.value))
    case GroupsTwice(i) => i == n && first && last.groups.Some? && !Distinct(TrimAll(last.groups.value))
    case _ => false
  }

  lemma LastComplains(front: seq<Selection>, kept: seq<Selection>, last: Selection, e: Error)
    requires Trim(last.id) in Ids(kept) <==> Trim(last.id) != "" && Repeated(front, Trim(last.id))
    ensures e in ScanErrors(kept, |front|, last) <==> LastComplaint(front, last, e)
  {
    var groups := TrimGroups(last.groups);
    GroupErrorsMean(|front|, groups);
    TrimmedAreTrimmed(last.groups);
    GroupErrorsAre(|front|, groups, e);
  }

  lemma ComplaintInMore(sources: seq<Selection>, n: nat, e: Error)
    requires |sources| == n + 1
    ensures ScanComplaint(sources, e) <==> ScanComplaint(sources[..n], e) || LastComplaint(sources[..n], sources[n], e)
  {
    KeptFrontOrLast(sources, n);
    match e
    case SourceTwice(x) => TwiceInMore(sources, n, x);
    case GroupsEmpty(i) => if i < n { KeptFrontOrLast(sources, i); }
    case GroupsTwice(i) => if i < n { KeptFrontOrLast(sources, i); }
    case _ =>
  }

  lemma TwiceInMore(sources: seq<Selection>, n: nat, id: string)
    requires |sources| == n + 1
    ensures ScanComplaint(sources, SourceTwice(id)) <==>
            ScanComplaint(sources[..n], SourceTwice(id)) || LastComplaint(sources[..n], sources[n], SourceTwice(id))
  {
    assert forall j | 0 <= j <= n :: sources[..n][..j] == sources[..j];
    assert forall j | 0 <= j < n :: sources[..n][j] == sources[j];
  }

  lemma TrimmedAreTrimmed(groups: Option<seq<string>>)
    ensures AllTrimmed(TrimGroups(groups))
  {
    if groups.Some? {
      forall g <- TrimAll(groups.value) ensures Trim(g) == g {
        var i :| 0 <= i < |groups.value| && TrimAll(groups.value)[i] == g;
        TrimIsIdempotent(groups.value[i]);
      }
    }
  }

  lemma GroupErrorsAre(index: nat, groups: Option<seq<string>>, e: Error)
    ensures e in GroupErrors(index, groups) ==> e == GroupsEmpty(index) || e == GroupsTwice(index)
  {
  }

  // ---------------------------------------------------------------- the other parts

  /** A configuration that can be read, and what is wrong with it. */
  lemma ReadableComplains(t: Tables, project: string, archive: string, received: nat, config: Config, e: Error)
    requires project != "" && project in t.active && t.active[project].config == Some(config)
    ensures e in ConfigErrors(t, project, archive, received) <==>
      || (config.faults != [] && e == ConfigInvalid(FirstFaults(config.faults)))
      || (config.id != project && e == ConfigOfOther(config.id, project))
      || (archive != "" && archive !in config.archives && e == ArchiveDisabled(archive, project))
      || (SourceLimit(config).Some? && received > SourceLimit(config).value
          && e == TooManySources(project, SourceLimit(config).value, received))
  {
    InOneOfFour(
      if config.faults != [] then [ConfigInvalid(FirstFaults(config.faults))] else [],
      if config.id != project then [ConfigOfOther(config.id, project)] else [],
      if archive != "" && archive !in config.archives then [ArchiveDisabled(archive, project)] else [],
      if SourceLimit(config).Some? && received > SourceLimit(config).value
        then [TooManySources(project, SourceLimit(config).value, received)] else [], e);
  }

  lemma FirstFaultsAre(faults: seq<string>)
    ensures FirstFaults(faults) == faults[..if |faults| < 3 then |faults| else 3]
  {
    assert faults[..|faults|] == faults;
  }

  lemma ConfigComplains(t: Tables, project: string, archive: string, received: nat, e: Error)
    ensures e in ConfigErrors(t, project, archive, received) <==> ConfigComplaint(t, project, archive, received, e)
  {
    if project != "" && project in t.active && t.active[project].config.Some? {
      var config := t.active[project].config.value;
      ReadableComplains(t, project, archive, received, config, e);
      FirstFaultsAre(config.faults);
    }
  }

  lemma InOneOfFour(a: seq<Error>, b: seq<Error>, c: seq<Error>, d: seq<Error>, e: Error)
    ensures e in a + b + c + d <==> e in a || e in b || e in c || e in d
  {
  }

  lemma ChosenIsAskedFor(t: Tables, req: Create)
    ensures var chosen := ChosenProfile(t, Trim(req.project), req.profileId, req.profileName).0;
            forall profile :: AsksFor(t, req, profile) <==> chosen == Some(profile)
  {
  }

  lemma ChoiceComplains(t: Tables, req: Create, e: Error)
    ensures e in ChosenProfile(t, Trim(req.project), req.profileId, req.profileName).1 <==>
            ProfileComplaint(t, req, e) && !e.ProfileOfOther? && !e.ProfileInvalid?
  {
  }

  lemma ChosenComplains(t: Tables, req: Create, e: Error)
    ensures e in ProfileErrors(ChosenProfile(t, Trim(req.project), req.profileId, req.profileName).0, Trim(req.project)) <==>
            ProfileComplaint(t, req, e) && (e.ProfileOfOther? || e.ProfileInvalid?)
  {
    var chosen := ChosenProfile(t, Trim(req.project), req.profileId, req.profileName).0;
    ChosenIsAskedFor(t, req);
    if chosen.Some? { assert AsksFor(t, req, chosen.value); }
  }

  lemma ProfileComplains(t: Tables, req: Create, e: Error)
    ensures var chosen := ChosenProfile(t, Trim(req.project), req.profileId, req.profileName);
            e in chosen.1 + ProfileErrors(chosen.0, Trim(req.project)) <==> ProfileComplaint(t, req, e)
  {
    ChoiceComplains(t, req, e);
    ChosenComplains(t, req, e);
  }

  function ErrorsOf(t: Tables, project: string, s: Selection): seq<Error> {
    SourceErrors(t, project, s, RowsFor(t.rows, project, s))
  }

  ghost predicate SomeComplains(t: Tables, project: string, kept: seq<Selection>, e: Error) {
    exists s <- kept :: e in ErrorsOf(t, project, s)
  }

  lemma SomeInMore(t: Tables, project: string, front: seq<Selection>, last: Selection, e: Error)
    ensures SomeComplains(t, project, front + [last], e) <==>
            SomeComplains(t, project, front, e) || e in ErrorsOf(t, project, last)
  {
    assert forall s :: s in front + [last] <==> s in front || s == last;
  }

  lemma InspectOneMore(t: Tables, project: string, kept: seq<Selection>, ids: seq<string>)
    requires kept != [] && kept[|kept| - 1].id in ids
    ensures var front, last := kept[..|kept| - 1], kept[|kept| - 1];
      && kept == front + [last]
      && Inspect(t, project, kept, Fetched(t.rows, project, ids)).0
         == Inspect(t, project, front, Fetched(t.rows, project, ids)).0 + ErrorsOf(t, project, last)
  {
    FetchingFirst(t.rows, project, ids, kept[|kept| - 1]);
  }

  lemma {:induction false} InspectComplains(t: Tables, project: string, kept: seq<Selection>, ids: seq<string>, e: Error)
    requires forall i | 0 <= i < |kept| :: kept[i].id in ids
    ensures e in Inspect(t, project, kept, Fetched(t.rows, project, ids)).0 <==> SomeComplains(t, project, kept, e)
  {
    if kept != [] {
      var front, last := kept[..|kept| - 1], kept[|kept| - 1];
      InspectComplains(t, project, front, ids, e);
      InspectOneMore(t, project, kept, ids);
      SomeInMore(t, project, front, last, e);
    }
  }

  lemma OneSourceComplains(t: Tables, project: string, s: Selection, e: Error)
    ensures e in ErrorsOf(t, project, s) <==> ComplaintAbout(t, project, s, e)
  {
    var rows := RowsFor(t.rows, project, s);
    if s.groups.Some? { MissingGroupsAre(s.id, s.groups.value, rows, e); }
    if e.GroupUndiscovered? {
      if s.groups.Some? && e.group in s.groups.value { DiscoveredInTable(t.rows, project, s, e.group); }
    } else if e.SourceNotReady? {
      ReadinessErrorExactly(t, project, s, e.reason);
    }
  }

  lemma SourcesComplain(t: Tables, req: Create, e: Error)
    ensures var project, kept := Trim(req.project), ScanSources(req.sources).1;
            e in Inspect(t, project, kept, Fetched(t.rows, project, Ids(kept))).0 <==> SourceComplaint(t, req, e)
  {
    var project, kept := Trim(req.project), ScanSources(req.sources).1;
    InspectComplains(t, project, kept, Ids(kept), e);
    if s :| s in kept && e in ErrorsOf(t, project, s) {
      ScanKeeps(req.sources, s);
      var i: nat :| IsKept(req.sources, i) && Normalized(req.sources[i]) == s;
      OneSourceComplains(t, project, s, e);
    }
    if i: nat :| IsKept(req.sources, i) && ComplaintAbout(t, project, Normalized(req.sources[i]), e) {
      var s := Normalized(req.sources[i]);
      ScanKeeps(req.sources, s);
      OneSourceComplains(t, project, s, e);
    }
  }

  lemma Together(t: Tables, req: Create, a: seq<Error>, b: seq<Error>, c: seq<Error>, d: seq<Error>, f: seq<Error>,
                 g: seq<Error>, e: Error)
    requires e in a <==> HeadComplaint(req, e)
    requires e in b <==> ScanComplaint(req.sources, e)
    requires e in c <==> ConfigComplaint(t, Trim(req.project), Trim(req.archive), |Named(req.sources)|, e)
    requires e in d + f <==> ProfileComplaint(t, req, e)
    requires e in g <==> SourceComplaint(t, req, e)
    ensures e in a + b + c + d + f + g <==> Complains(t, req, e)
  {
  }

  lemma HeadComplains(req: Create, e: Error)
    ensures e in HeadErrors(Trim(req.project), Trim(req.archive), req.sources == []) <==> HeadComplaint(req, e)
  {
  }

  lemma PartsOfDecision(t: Tables, req: Create)
    ensures var project, archive, scan := Trim(req.project), Trim(req.archive), ScanSources(req.sources);
      var choice := ChosenProfile(t, project, req.profileId, req.profileName);
      Decision(t, req).errors ==
        HeadErrors(project, archive, req.sources == []) + scan.0 + ConfigErrors(t, project, archive, |scan.1|)
        + choice.1 + ProfileErrors(choice.0, project) + Inspect(t, project, scan.1, Fetched(t.rows, project, Ids(scan.1))).0
  {
  }

  /** Every complaint is made exactly if its condition holds, for all requests and tables. */
  lemma ErrorsExactly(t: Tables, req: Create, e: Error)
    ensures e in Decision(t, req).errors <==> Complains(t, req, e)
  {
    var project, archive, scan := Trim(req.project), Trim(req.archive), ScanSources(req.sources);
    var choice := ChosenProfile(t, project, req.profileId, req.profileName);
    HeadComplains(req, e);
    ScanComplains(req.sources, e);
    ScanCounts(req.sources);
    ConfigComplains(t, project, archive, |scan.1|, e);
    ProfileComplains(t, req, e);
    SourcesComplain(t, req, e);
    PartsOfDecision(t, req);
    Together(t, req, HeadErrors(project, archive, req.sources == []), scan.0, ConfigErrors(t, project, archive, |scan.1|),
             choice.1, ProfileErrors(choice.0, project),
             Inspect(t, project, scan.1, Fetched(t.rows, project, Ids(scan.1))).0, e);
  }

  /** The response names the profile that was asked for and the active configuration, valid or not. */
  lemma ContextIsNamed(t: Tables, req: Create)
    ensures var d, project := Decision(t, req), Trim(req.project);
      && (forall uuid :: d.profile == Some(uuid) <==> exists profile :: AsksFor(t, req, profile) && profile.uuid == uuid)
      && (forall uuid :: d.config == Some(uuid) <==> project != "" && project in t.active && t.active[project].uuid == uuid)
  {
    ChosenIsAskedFor(t, req);
  }

  // ---------------------------------------------------------------- the order of complaints

  /** Which check makes a complaint; the checks are carried out in this order. */
  function Rank(e: Error): nat {
    match e
    case ProjectEmpty => 0
    case ArchiveEmpty => 1
    case NoSources => 2
    case SourceEmpty(_) => 3 case SourceTwice(_) => 3 case GroupsEmpty(_) => 3 case GroupsTwice(_) => 3
    case NoConfig(_) => 4 case ConfigUnreadable => 4 case ConfigInvalid(_) => 4
    case ConfigOfOther(_, _) => 5
    case ArchiveDisabled(_, _) => 6
    case TooManySources(_, _, _) => 7
    case TwoProfiles => 8 case ProfileIdUnknown(_) => 8 case ProfileNameEmpty => 8 case ProfileNameUnknown(_) => 8
    case NoDefaultProfile(_) => 8
    case ProfileOfOther(_, _) => 9
    case ProfileInvalid(_) => 10
    case GroupUndiscovered(_, _) => 11 case SourceNotReady(_, _) => 11
  }

  /** Complaints of the checks from one to another, in the order of the checks. */
  ghost predicate Within(errors: seq<Error>, lo: nat, hi: nat) {
    && (forall i | 0 <= i < |errors| :: lo <= Rank(errors[i]) <= hi)
    && (forall i, j | 0 <= i < j < |errors| :: Rank(errors[i]) <= Rank(errors[j]))
  }

  lemma Append(a: seq<Error>, b: seq<Error>, lo: nat, mid: nat, hi: nat)
    requires Within(a, lo, mid) && Within(b, mid, hi) && lo <= mid <= hi
    ensures Within(a + b, lo, hi)
  {
  }

  lemma Widen(a: seq<Error>, lo: nat, hi: nat, hi': nat)
    requires Within(a, lo, hi) && hi <= hi'
    ensures Within(a, lo, hi')
  {
  }

  lemma ScanErrorsAreWithin(kept: seq<Selection>, index: nat, selection: Selection)
    ensures Within(ScanErrors(kept, index, selection), 3, 3)
  {
  }

  lemma {:induction false} ScanIsWithin(sources: seq<Selection>)
    ensures Within(ScanSources(sources).0, 3, 3)
  {
    if sources != [] {
      var n := |sources| - 1;
      var before := ScanSources(sources[..n]);
      ScanIsWithin(sources[..n]);
      ScanErrorsAreWithin(before.1, n, sources[n]);
      Append(before.0, ScanErrors(before.1, n, sources[n]), 3, 3, 3);
    }
  }

  lemma FourAreWithin(a: seq<Error>, b: seq<Error>, c: seq<Error>, d: seq<Error>)
    requires Within(a, 4, 4) && Within(b, 5, 5) && Within(c, 6, 6) && Within(d, 7, 7)
    ensures Within(a + b + c + d, 4, 7)
  {
    Widen(a, 4, 4, 5);
    Append(a, b, 4, 5, 5);
    Widen(a + b, 4, 5, 6);
    Append(a + b, c, 4, 6, 6);
    Widen(a + b + c, 4, 6, 7);
    Append(a + b + c, d, 4, 7, 7);
  }

  lemma AtMostOneIsWithin(errors: seq<Error>, rank: nat)
    requires |errors| <= 1 && (errors != [] ==> Rank(errors[0]) == rank)
    ensures Within(errors, rank, rank)
  {
  }

  lemma ReadableIsWithin(project: string, archive: string, received: nat, config: Config)
    ensures Within(
      (if config.faults != [] then [ConfigInvalid(FirstFaults(config.faults))] else [])
      + (if config.id != project then [ConfigOfOther(config.id, project)] else [])
      + (if archive != "" && archive !in config.archives then [ArchiveDisabled(archive, project)] else [])
      + (if SourceLimit(config).Some? && received > SourceLimit(config).value
         then [TooManySources(project, SourceLimit(config).value, received)] else []), 4, 7)
  {
    var a := if config.faults != [] then [ConfigInvalid(FirstFaults(config.faults))] else [];
    var b := if config.id != project then [ConfigOfOther(config.id, project)] else [];
    var c := if archive != "" && archive !in config.archives then [ArchiveDisabled(archive, project)] else [];
    var d := if SourceLimit(config).Some? && received > SourceLimit(config).value
             then [TooManySources(project, SourceLimit(config).value, received)] else [];
    AtMostOneIsWithin(a, 4);
    AtMostOneIsWithin(b, 5);
    AtMostOneIsWithin(c, 6);
    AtMostOneIsWithin(d, 7);
    FourAreWithin(a, b, c, d);
  }

  lemma ConfigIsWithin(t: Tables, project: string, archive: string, received: nat)
    ensures Within(ConfigErrors(t, project, archive, received), 4, 7)
  {
    if project != "" && project in t.active && t.active[project].config.Some? {
      ReadableIsWithin(project, archive, received, t.active[project].config.value);
    } else {
      AtMostOneIsWithin(ConfigErrors(t, project, archive, received), 4);
      Widen(ConfigErrors(t, project, archive, received), 4, 4, 7);
    }
  }

  lemma HeadIsWithin(req: Create)
    ensures Within(HeadErrors(Trim(req.project), Trim(req.archive), req.sources == []), 0, 2)
  {
  }

  lemma ChoiceIsWithin(t: Tables, req: Create)
    ensures Within(ChosenProfile(t, Trim(req.project), req.profileId, req.profileName).1, 8, 8)
  {
    AtMostOneIsWithin(ChosenProfile(t, Trim(req.project), req.profileId, req.profileName).1, 8);
  }

  lemma ProfileIsWithin(profile: Option<Profile>, project: string)
    ensures Within(ProfileErrors(profile, project), 9, 10)
  {
    if profile.Some? {
      var a := if profile.value.project.Some? && profile.value.project.value != project
               then [ProfileOfOther(profile.value.name, profile.value.project.value)] else [];
      var b := if !profile.value.sound then [ProfileInvalid(profile.value.name)] else [];
      AtMostOneIsWithin(a, 9);
      AtMostOneIsWithin(b, 10);
      Widen(a, 9, 9, 10);
      Append(a, b, 9, 10, 10);
    }
  }

  lemma {:induction false} MissingIsWithin(id: string, groups: seq<string>, rows: seq<Row>)
    ensures Within(MissingGroups(id, groups, rows), 11, 11)
  {
    if groups != [] { MissingIsWithin(id, groups[..|groups| - 1], rows); }
  }

  lemma SourceIsWithin(t: Tables, project: string, s: Selection, rows: seq<Row>)
    ensures Within(SourceErrors(t, project, s, rows), 11, 11)
  {
    if s.groups.Some? { MissingIsWithin(s.id, s.groups.value, rows); }
  }

  lemma {:induction false} InspectIsWithin(t: Tables, project: string, kept: seq<Selection>, fetched: seq<Row>)
    ensures Within(Inspect(t, project, kept, fetched).0, 11, 11)
  {
    if kept != [] {
      var front, last := kept[..|kept| - 1], kept[|kept| - 1];
      InspectIsWithin(t, project, front, fetched);
      SourceIsWithin(t, project, last, Matching(fetched, last));
      Append(Inspect(t, project, front, fetched).0, SourceErrors(t, project, last, Matching(fetched, last)), 11, 11, 11);
    }
  }

  lemma SixAreWithin(a: seq<Error>, b: seq<Error>, c: seq<Error>, d: seq<Error>, f: seq<Error>, g: seq<Error>)
    requires Within(a, 0, 2) && Within(b, 3, 3) && Within(c, 4, 7) && Within(d, 8, 8) && Within(f, 9, 10) && Within(g, 11, 11)
    ensures Within(a + b + c + d + f + g, 0, 11)
  {
    Widen(a, 0, 2, 3);
    Append(a, b, 0, 3, 3);
    Widen(a + b, 0, 3, 4);
    Append(a + b, c, 0, 4, 7);
    Widen(a + b + c, 0, 7, 8);
    Append(a + b + c, d, 0, 8, 8);
    Widen(a + b + c + d, 0, 8, 9);
    Append(a + b + c + d, f, 0, 9, 10);
    Widen(a + b + c + d + f, 0, 10, 11);
    Append(a + b + c + d + f, g, 0, 11, 11);
  }

  /** Complaints are made in the order of the checks. */
  lemma ErrorsInOrder(t: Tables, req: Create)
    ensures var errors := Decision(t, req).errors;
            forall i, j | 0 <= i < j < |errors| :: Rank(errors[i]) <= Rank(errors[j])
  {
    var project, archive, scan := Trim(req.project), Trim(req.archive), ScanSources(req.sources);
    var choice := ChosenProfile(t, project, req.profileId, req.profileName);
    var fetched := Fetched(t.rows, project, Ids(scan.1));
    HeadIsWithin(req);
    ScanIsWithin(req.sources);
    ConfigIsWithin(t, project, archive, |scan.1|);
    ChoiceIsWithin(t, req);
    ProfileIsWithin(choice.0, project);
    InspectIsWithin(t, project, scan.1, fetched);
    PartsOfDecision(t, req);
    SixAreWithin(HeadErrors(project, archive, req.sources == []), scan.0, ConfigErrors(t, project, archive, |scan.1|),
                 choice.1, ProfileErrors(choice.0, project), Inspect(t, project, scan.1, fetched).0);
  }

  // ---------------------------------------------------------------- previews

  /** How many rows of the table belong to the selected groups of a source. */
  function RowsOfSource(rows: seq<Row>, project: string, s: Selection): nat {
    if rows == [] then 0
    else RowsOfSource(rows[..|rows| - 1], project, s) + (if RowOf(rows[|rows| - 1], project, s) then 1 else 0)
  }

  /** The length of the list of records in the metadata of a row. */
  function RecordsInRow(row: Row): nat {
    match row.metadata
    case Some(Obj(fields)) => if "records" in fields && fields["records"].Arr? then |fields["records"].items| else 0
    case _ => 0
  }

  /** The same for their records. */
  function RecordsOfSource(rows: seq<Row>, project: string, s: Selection): nat {
    if rows == [] then 0
    else
      RecordsOfSource(rows[..|rows| - 1], project, s)
      + (if RowOf(rows[|rows| - 1], project, s) then RecordsInRow(rows[|rows| - 1]) else 0)
  }

  lemma {:induction false} RecordsOfMore(rows: seq<Row>, row: Row)
    ensures RecordsOf(rows + [row]) == RecordsOf(rows) + RecordsInRow(row)
  {
    if rows == [] {
      assert (rows + [row])[1..] == [];
    } else {
      assert (rows + [row])[1..] == rows[1..] + [row];
      RecordsOfMore(rows[1..], row);
    }
  }

  lemma {:induction false} SourceIsCounted(rows: seq<Row>, project: string, s: Selection)
    ensures var found := RowsFor(rows, project, s);
            |found| == RowsOfSource(rows, project, s) && RecordsOf(found) == RecordsOfSource(rows, project, s)
  {
    if rows != [] {
      var front, last := rows[..|rows| - 1], rows[|rows| - 1];
      SourceIsCounted(front, project, s);
      RecordsOfMore(RowsFor(front, project, s), last);
      assert RowsFor(front, project, s) + [] == RowsFor(front, project, s);
    }
  }

  /** One preview for each source that is ready, in their order. */
  ghost function PreviewsOf(t: Tables, project: string, kept: seq<Selection>): seq<Preview> {
    if kept == [] then []
    else
      var s := kept[|kept| - 1];
      PreviewsOf(t, project, kept[..|kept| - 1])
      + if IsReady(t, project, s)
        then [Preview(s.id, RowsOfSource(t.rows, project, s), RecordsOfSource(t.rows, project, s))] else []
  }

  ghost function RecordsOfAll(t: Tables, project: string, kept: seq<Selection>): nat {
    if kept == [] then 0
    else
      var s := kept[|kept| - 1];
      RecordsOfAll(t, project, kept[..|kept| - 1]) + if IsReady(t, project, s) then RecordsOfSource(t.rows, project, s) else 0
  }

  lemma OnePreview(t: Tables, project: string, s: Selection)
    ensures PreviewOf(t, project, s, RowsFor(t.rows, project, s)) ==
      if IsReady(t, project, s)
      then [Preview(s.id, RowsOfSource(t.rows, project, s), RecordsOfSource(t.rows, project, s))] else []
  {
    ReadinessErrorExactly(t, project, s, Disabled);
    SourceIsCounted(t.rows, project, s);
  }

  lemma PreviewsOfOneMore(t: Tables, project: string, front: seq<Selection>, last: Selection)
    ensures var shown := PreviewOf(t, project, last, RowsFor(t.rows, project, last));
      && PreviewsOf(t, project, front + [last]) == PreviewsOf(t, project, front) + shown
      && RecordsOfAll(t, project, front + [last])
         == RecordsOfAll(t, project, front) + (if shown == [] then 0 else shown[0].recordCount)
  {
    assert (front + [last])[..|front|] == front;
    OnePreview(t, project, last);
  }

  lemma {:induction false} InspectPreviews(t: Tables, project: string, kept: seq<Selection>, ids: seq<string>)
    requires forall i | 0 <= i < |kept| :: kept[i].id in ids
    ensures var previews := Inspect(t, project, kept, Fetched(t.rows, project, ids)).1;
            previews == PreviewsOf(t, project, kept) && TotalRecords(previews) == RecordsOfAll(t, project, kept)
  {
    if kept != [] {
      var front, last := kept[..|kept| - 1], kept[|kept| - 1];
      assert kept == front + [last];
      InspectPreviews(t, project, front, ids);
      PreviewsGrow(t, project, front, last, ids);
      PreviewsOfOneMore(t, project, front, last);
      TotalGrows(t, project, PreviewsOf(t, project, front), last);
    }
  }

  lemma PreviewsGrow(t: Tables, project: string, front: seq<Selection>, last: Selection, ids: seq<string>)
    requires last.id in ids
    ensures Inspect(t, project, front + [last], Fetched(t.rows, project, ids)).1
         == Inspect(t, project, front, Fetched(t.rows, project, ids)).1 + PreviewOf(t, project, last, RowsFor(t.rows, project, last))
  {
    InspectOfMore(t, project, front, last, Fetched(t.rows, project, ids));
    FetchingFirst(t.rows, project, ids, last);
  }

  lemma TotalGrows(t: Tables, project: string, previews: seq<Preview>, last: Selection)
    ensures var shown := PreviewOf(t, project, last, RowsFor(t.rows, project, last));
            TotalRecords(previews + shown) == TotalRecords(previews) + (if shown == [] then 0 else shown[0].recordCount)
  {
    TotalOfMore(previews, PreviewOf(t, project, last, RowsFor(t.rows, project, last)));
  }

  /**
   For every request, valid or not, the response previews each ready source of the scan with the
   number of its rows and records in the table, and totals the records.
   */
  lemma PreviewsExactly(t: Tables, req: Create)
    ensures var d, project := Decision(t, req), Trim(req.project);
            d.previews == PreviewsOf(t, project, d.sources) && d.totalRecords == RecordsOfAll(t, project, d.sources)
  {
    var kept := ScanSources(req.sources).1;
    InspectPreviews(t, Trim(req.project), kept, Ids(kept));
  }
}
