/**
 The operator-bundle materialiser of `beampipe-cli`: a three-way merge of the file an operator
 has, the file a bundle ships, and the digest the last installed bundle recorded. Files are
 replaced one after the other, each by renaming a finished temporary file, and the manifest is
 written last. A write may fail, or the program stop, at any of its steps.
 */
module Materialize {
  import opened Options

  type Path = string
  type Content = string

  /** SHA-256, taken to be injective. */
  datatype Digest = Sha256(of: Content)

  /** A file that is there may still fail to be read. */
  datatype File = Readable(content: Content) | Unreadable(content: Content)

  type Files = map<Path, File>

  datatype Manifest = Manifest(schemaVersion: nat, bundleVersion: string, files: map<Path, Digest>)

  datatype BundleFile = BundleFile(path: Path, content: Content)

  datatype Report = Report(created: seq<Path>, skipped: seq<Path>, replaced: seq<Path>, bundleCurrent: bool)

  /** The paths of a bundle are different. */
  ghost predicate Distinct(bundle: seq<BundleFile>) {
    forall i, j | 0 <= i < j < |bundle| :: bundle[i].path != bundle[j].path
  }

  ghost predicate Ships(bundle: seq<BundleFile>, p: Path, c: Content) {
    BundleFile(p, c) in bundle
  }

  // ---------------------------------------------------------------- the merge of one file

  function ActualHash(files: Files, p: Path): Option<Digest> {
    if p in files && files[p].Readable? then Some(Sha256(files[p].content)) else None
  }

  function PreviousHash(previous: Option<Manifest>, p: Path): Option<Digest> {
    if previous.Some? && p in previous.value.files then Some(previous.value.files[p]) else None
  }

  predicate Managed(files: Files, previous: Option<Manifest>, force: bool, f: BundleFile) {
    var actual := ActualHash(files, f.path);
    || force
    || actual.None?
    || actual == Some(Sha256(f.content))
    || (PreviousHash(previous, f.path).Some? && actual == PreviousHash(previous, f.path))
  }

  /** The files after one bundle file has been dealt with. */
  function Merged(files: Files, previous: Option<Manifest>, force: bool, f: BundleFile): Files {
    if Managed(files, previous, force, f) && ActualHash(files, f.path) != Some(Sha256(f.content))
    then files[f.path := Readable(f.content)]
    else files
  }

  /** The files after the first `n` files of a bundle have been dealt with. */
  function After(files: Files, previous: Option<Manifest>, force: bool, bundle: seq<BundleFile>, n: nat): Files
    requires n <= |bundle|
  {
    if n == 0 then files
    else Merged(After(files, previous, force, bundle, n - 1), previous, force, bundle[n - 1])
  }

  /** A manifest of another schema version is not used. */
  function ReadManifest(stored: Option<Manifest>): Option<Manifest> {
    if stored.Some? && stored.value.schemaVersion == 1 then stored else None
  }

  function Recorded(bundle: seq<BundleFile>, n: nat): map<Path, Digest>
    requires n <= |bundle|
  {
    if n == 0 then map[] else Recorded(bundle, n - 1)[bundle[n - 1].path := Sha256(bundle[n - 1].content)]
  }

  function ManifestOf(version: string, bundle: seq<BundleFile>): Manifest {
    Manifest(1, version, Recorded(bundle, |bundle|))
  }

  // ---------------------------------------------------------------- what the merge does to each path

  lemma {:induction false} AfterOutside(
      files: Files, previous: Option<Manifest>, force: bool, bundle: seq<BundleFile>, n: nat, p: Path)
    requires n <= |bundle| && forall i | 0 <= i < n :: bundle[i].path != p
    ensures p in After(files, previous, force, bundle, n) <==> p in files
    ensures p in files ==> After(files, previous, force, bundle, n)[p] == files[p]
  {
    if n > 0 { AfterOutside(files, previous, force, bundle, n - 1, p); }
  }

  /** Each bundle path is merged once, from the files as they were at the start. */
  lemma {:induction false} AfterAt(
      files: Files, previous: Option<Manifest>, force: bool, bundle: seq<BundleFile>, n: nat, i: nat)
    requires Distinct(bundle) && i < n <= |bundle|
    ensures
      var f := bundle[i];
      var there := After(files, previous, force, bundle, n);
      f.path in there && there[f.path] == Merged(files, previous, force, f)[f.path]
  {
    if i < n - 1 {
      AfterAt(files, previous, force, bundle, n - 1, i);
    } else {
      AfterOutside(files, previous, force, bundle, i, bundle[i].path);
    }
  }

  lemma {:induction false} RecordedAt(bundle: seq<BundleFile>, n: nat, p: Path)
    requires Distinct(bundle) && n <= |bundle|
    ensures p in Recorded(bundle, n) <==> exists i :: 0 <= i < n && bundle[i].path == p
    ensures forall i | 0 <= i < n && bundle[i].path == p :: Recorded(bundle, n)[p] == Sha256(bundle[i].content)
  {
    if n > 0 { RecordedAt(bundle, n - 1, p); }
  }

  // ---------------------------------------------------------------- the report

  /** A report extended by one bundle file, from what its path held before and holds after. */
  function Report1(report: Report, before: Files, after: Files, f: BundleFile): Report
    requires f.path in after
  {
    if f.path !in before then report.(created := report.created + [f.path])
    else if after[f.path] != before[f.path] then report.(replaced := report.replaced + [f.path])
    else report.(skipped := report.skipped + [f.path],
                 bundleCurrent := report.bundleCurrent && after[f.path] == Readable(f.content))
  }

  function Reported(before: Files, after: Files, bundle: seq<BundleFile>, n: nat): Report
    requires n <= |bundle| && forall i | 0 <= i < n :: bundle[i].path in after
  {
    if n == 0 then Report([], [], [], true)
    else Report1(Reported(before, after, bundle, n - 1), before, after, bundle[n - 1])
  }

  lemma {:induction false} ReportedFrame(before: Files, after: Files, after': Files, bundle: seq<BundleFile>, n: nat)
    requires n <= |bundle|
    requires forall i | 0 <= i < n :: bundle[i].path in after && bundle[i].path in after'
    requires forall i | 0 <= i < n :: after'[bundle[i].path] == after[bundle[i].path]
    ensures Reported(before, after', bundle, n) == Reported(before, after, bundle, n)
  {
    if n > 0 { ReportedFrame(before, after, after', bundle, n - 1); }
  }

  /** The first paths of a bundle hold what the bundle ships. */
  ghost predicate FirstCurrent(files: Files, bundle: seq<BundleFile>, n: nat)
    requires n <= |bundle|
  {
    forall i | 0 <= i < n :: bundle[i].path in files && files[bundle[i].path] == Readable(bundle[i].content)
  }

  /** Where the loop over a bundle stands after `i` files. */
  ghost predicate Progress(
      before: Files, previous: Option<Manifest>, force: bool, bundle: seq<BundleFile>, i: nat,
      files: Files, next: map<Path, Digest>, report: Report)
    requires i <= |bundle|
  {
    && files == After(before, previous, force, bundle, i)
    && next == Recorded(bundle, i)
    && (forall j | 0 <= j < i :: bundle[j].path in files)
    && report == Reported(before, files, bundle, i)
    && (report.bundleCurrent <==> FirstCurrent(files, bundle, i))
  }

  /** The loop gets from one file to the next. */
  lemma OneMoreFile(
      before: Files, previous: Option<Manifest>, force: bool, bundle: seq<BundleFile>, i: nat,
      files: Files, next: map<Path, Digest>, report: Report,
      files': Files, next': map<Path, Digest>, report': Report)
    requires Distinct(bundle) && i < |bundle| && Progress(before, previous, force, bundle, i, files, next, report)
    requires files' == Merged(files, previous, force, bundle[i]) && bundle[i].path in files'
    requires next' == next[bundle[i].path := Sha256(bundle[i].content)]
    requires report' == Report1(report, files, files', bundle[i])
    ensures Progress(before, previous, force, bundle, i + 1, files', next', report')
  {
    AfterOutside(before, previous, force, bundle, i, bundle[i].path);
    assert forall j | 0 <= j < i :: bundle[j].path != bundle[i].path && files'[bundle[j].path] == files[bundle[j].path];
    ReportedFrame(before, files, files', bundle, i);
  }

  /** Every path of a bundle holds what the bundle ships. */
  ghost predicate Current(files: Files, bundle: seq<BundleFile>) {
    forall f <- bundle :: f.path in files && files[f.path] == Readable(f.content)
  }

  // ---------------------------------------------------------------- what an operator can rely on

  /** The paths of a bundle that are chosen, in the order of the bundle. */
  function PathsWhere(bundle: seq<BundleFile>, chosen: BundleFile -> bool): seq<Path> {
    if bundle == [] then []
    else
      var front, last := bundle[..|bundle| - 1], bundle[|bundle| - 1];
      PathsWhere(front, chosen) + (if chosen(last) then [last.path] else [])
  }

  /** The lists of a report split the bundle by what was there before and what is there now. */
  ghost predicate Tells(report: Report, before: Files, after: Files, bundle: seq<BundleFile>) {
    && report.created == PathsWhere(bundle, (f: BundleFile) => f.path !in before)
    && report.replaced == PathsWhere(bundle, (f: BundleFile) => f.path in before && f.path in after && after[f.path] != before[f.path])
    && report.skipped == PathsWhere(bundle, (f: BundleFile) => f.path in before && f.path in after && after[f.path] == before[f.path])
  }

  lemma {:induction false} ReportedTells(before: Files, after: Files, bundle: seq<BundleFile>, n: nat)
    requires n <= |bundle| && forall i | 0 <= i < n :: bundle[i].path in after
    ensures Tells(Reported(before, after, bundle, n), before, after, bundle[..n])
  {
    if n > 0 {
      ReportedTells(before, after, bundle, n - 1);
      assert bundle[..n][..n - 1] == bundle[..n - 1];
    }
  }

  lemma {:induction false} PathsWhereAre(bundle: seq<BundleFile>, chosen: BundleFile -> bool, f: BundleFile)
    requires Distinct(bundle) && f in bundle
    ensures f.path in PathsWhere(bundle, chosen) <==> chosen(f)
  {
    var n := |bundle| - 1;
    var front, last := bundle[..n], bundle[n];
    if f == last {
      NotAmongPaths(front, chosen, f.path);
    } else {
      var i :| 0 <= i < |bundle| && bundle[i] == f;
      assert front[i] == f;
      PathsWhereAre(front, chosen, f);
    }
  }

  lemma {:induction false} NotAmongPaths(bundle: seq<BundleFile>, chosen: BundleFile -> bool, p: Path)
    requires forall i | 0 <= i < |bundle| :: bundle[i].path != p
    ensures p !in PathsWhere(bundle, chosen)
  {
    if bundle != [] { NotAmongPaths(bundle[..|bundle| - 1], chosen, p); }
  }

  /** Each path of a bundle is in exactly one list of the report, by what became of its file. */
  lemma TellsOfEach(report: Report, before: Files, after: Files, bundle: seq<BundleFile>)
    requires Distinct(bundle) && Tells(report, before, after, bundle)
    requires forall f <- bundle :: f.path in after
    ensures forall f <- bundle ::
      && (f.path in report.created <==> f.path !in before)
      && (f.path in report.replaced <==> f.path in before && after[f.path] != before[f.path])
      && (f.path in report.skipped <==> f.path in before && after[f.path] == before[f.path])
  {
    forall f <- bundle ensures
      && (f.path in report.created <==> f.path !in before)
      && (f.path in report.replaced <==> f.path in before && after[f.path] != before[f.path])
      && (f.path in report.skipped <==> f.path in before && after[f.path] == before[f.path])
    {
      PathsWhereAre(bundle, (g: BundleFile) => g.path !in before, f);
      PathsWhereAre(bundle, (g: BundleFile) => g.path in before && g.path in after && after[g.path] != before[g.path], f);
      PathsWhereAre(bundle, (g: BundleFile) => g.path in before && g.path in after && after[g.path] == before[g.path], f);
    }
  }

  /** One path stands before another one in a bundle. */
  predicate Before(bundle: seq<BundleFile>, p: Path, q: Path) {
    exists a, b | 0 <= a < b < |bundle| :: bundle[a].path == p && bundle[b].path == q
  }

  lemma BeforeInMore(front: seq<BundleFile>, last: BundleFile, p: Path, q: Path)
    requires Before(front, p, q) || (q == last.path && exists f <- front :: f.path == p)
    ensures Before(front + [last], p, q)
  {
    var all := front + [last];
    if Before(front, p, q) {
      var a, b :| 0 <= a < b < |front| && front[a].path == p && front[b].path == q;
      assert all[a].path == p && all[b].path == q;
    } else {
      var f :| f in front && f.path == p;
      var a :| 0 <= a < |front| && front[a] == f;
      assert all[a].path == p && all[|front|].path == q;
    }
  }

  /** Paths of chosen files, in the order of the bundle. */
  ghost predicate InBundleOrder(bundle: seq<BundleFile>, chosen: BundleFile -> bool, paths: seq<Path>) {
    && (forall p <- paths :: exists f <- bundle :: f.path == p && chosen(f))
    && (forall i, j | 0 <= i < j < |paths| :: Before(bundle, paths[i], paths[j]) && paths[i] != paths[j])
  }

  /** Each list of a report is in the order of the bundle, and names no path twice. */
  lemma {:induction false} PathsInOrder(bundle: seq<BundleFile>, chosen: BundleFile -> bool)
    requires Distinct(bundle)
    ensures InBundleOrder(bundle, chosen, PathsWhere(bundle, chosen))
  {
    if bundle != [] {
      var front, last := bundle[..|bundle| - 1], bundle[|bundle| - 1];
      PathsInOrder(front, chosen);
      assert front + [last] == bundle;
      var before := PathsWhere(front, chosen);
      NotAmongPaths(front, chosen, last.path);
      OneMoreInOrder(front, last, chosen, before);
      var all := front + [last];
      assert InBundleOrder(all, chosen, if chosen(last) then before + [last.path] else before);
      assert before + [] == before;
    }
  }

  lemma OneMoreInOrder(front: seq<BundleFile>, last: BundleFile, chosen: BundleFile -> bool, before: seq<Path>)
    requires InBundleOrder(front, chosen, before) && last.path !in before
    ensures InBundleOrder(front + [last], chosen, if chosen(last) then before + [last.path] else before)
  {
    var all, paths := front + [last], if chosen(last) then before + [last.path] else before;
    forall p <- paths ensures exists f <- all :: f.path == p && chosen(f) {
      if p in before {
        var f :| f in front && f.path == p && chosen(f);
        assert f in all;
      } else {
        assert last in all;
      }
    }
    forall i, j | 0 <= i < j < |paths| ensures Before(all, paths[i], paths[j]) && paths[i] != paths[j] {
      assert paths[i] == before[i] && before[i] in before;
      if j < |before| { assert paths[j] == before[j] && Before(front, before[i], before[j]); }
      BeforeInMore(front, last, paths[i], paths[j]);
    }
  }

  /** The stored manifest counts, and names this content for a path. */
  predicate Remembers(stored: Option<Manifest>, p: Path, c: Content) {
    && stored.Some? && stored.value.schemaVersion == 1
    && p in stored.value.files && stored.value.files[p] == Sha256(c)
  }

  /** What a bundle file becomes: an operator keeps a readable file that is neither shipped nor remembered. */
  function Becomes(before: Files, stored: Option<Manifest>, force: bool, f: BundleFile): File {
    if !force && f.path in before && before[f.path].Readable? && !Remembers(stored, f.path, before[f.path].content)
    then before[f.path]
    else Readable(f.content)
  }

  lemma MergedBecomes(before: Files, stored: Option<Manifest>, force: bool, f: BundleFile)
    ensures var after := Merged(before, ReadManifest(stored), force, f);
            f.path in after && after[f.path] == Becomes(before, stored, force, f)
  {
  }

  /** Each path of the first `n` files is what it becomes, and everything else is as it was. */
  ghost predicate Became(
      before: Files, stored: Option<Manifest>, force: bool, bundle: seq<BundleFile>, n: nat, after: Files)
    requires n <= |bundle|
  {
    && (forall f <- bundle[..n] :: f.path in after && after[f.path] == Becomes(before, stored, force, f))
    && (forall p | forall f <- bundle[..n] :: f.path != p ::
          (p in after <==> p in before) && (p in after ==> after[p] == before[p]))
  }

  lemma AfterBecame(before: Files, stored: Option<Manifest>, force: bool, bundle: seq<BundleFile>, n: nat)
    requires Distinct(bundle) && n <= |bundle|
    ensures Became(before, stored, force, bundle, n, After(before, ReadManifest(stored), force, bundle, n))
  {
    var after := After(before, ReadManifest(stored), force, bundle, n);
    forall f <- bundle[..n] ensures f.path in after && after[f.path] == Becomes(before, stored, force, f) {
      var i :| 0 <= i < n && bundle[i] == f;
      AfterAt(before, ReadManifest(stored), force, bundle, n, i);
      MergedBecomes(before, stored, force, f);
    }
    forall p | forall f <- bundle[..n] :: f.path != p
      ensures (p in after <==> p in before) && (p in after ==> after[p] == before[p])
    {
      assert forall i | 0 <= i < n :: bundle[i] in bundle[..n];
      AfterOutside(before, ReadManifest(stored), force, bundle, n, p);
    }
  }

  /** A manifest of the present schema that names exactly the files of a bundle. */
  ghost predicate Lists(manifest: Option<Manifest>, version: string, bundle: seq<BundleFile>) {
    && manifest.Some? && manifest.value.schemaVersion == 1 && manifest.value.bundleVersion == version
    && (forall p :: p in manifest.value.files <==> exists f <- bundle :: f.path == p)
    && (forall f <- bundle :: manifest.value.files[f.path] == Sha256(f.content))
  }

  lemma ManifestLists(version: string, bundle: seq<BundleFile>)
    requires Distinct(bundle)
    ensures Lists(Some(ManifestOf(version, bundle)), version, bundle)
  {
    var files := ManifestOf(version, bundle).files;
    forall p ensures p in files <==> exists f <- bundle :: f.path == p {
      RecordedAt(bundle, |bundle|, p);
      if f :| f in bundle && f.path == p { var i :| 0 <= i < |bundle| && bundle[i] == f; }
    }
    forall f <- bundle ensures files[f.path] == Sha256(f.content) {
      var i :| 0 <= i < |bundle| && bundle[i] == f;
      RecordedAt(bundle, |bundle|, f.path);
    }
  }

  // ---------------------------------------------------------------- the installation directory

  const BUNDLE_MANIFEST: Path := ".beampipe-operator-bundle.json"

  /** The name of a temporary file: the file it is for, and the random part. */
  datatype Temporary = Temporary(of: Path, id: nat)

  datatype Step = CreatingParents | Opening | Writing | Syncing | Renaming | Returning

  /** A write completes, or fails or is stopped at a step, which may have done part of its work. */
  datatype Fate = Completes | Stops(step: Step, done: nat)

  /** The random part a write draws for its temporary file, and what becomes of the write. */
  datatype Attempt = Attempt(id: nat, fate: Fate)

  predicate StopsAt(fate: Fate, step: Step) {
    fate.Stops? && fate.step == step
  }

  /** The directories above a path, among its first `n` characters. */
  function Parents(p: Path, n: nat): set<Path>
    requires n <= |p|
  {
    if n == 0 then {} else Parents(p, n - 1) + if p[n - 1] == '/' then {p[..n - 1]} else {}
  }

  /** Nothing is left behind, or one temporary file with the first part of the content. */
  ghost predicate LeavesAtMostOne(
      before: map<Temporary, Content>, after: map<Temporary, Content>, p: Path, c: Content)
  {
    || after == before
    || exists id: nat, n: nat ::
         n <= |c| && Temporary(p, id) !in before && after == before[Temporary(p, id) := c[..n]]
  }

  predicate Unhindered(attempt: Attempt, p: Path, temporaries: map<Temporary, Content>) {
    attempt.fate.Completes? && Temporary(p, attempt.id) !in temporaries
  }

  /** Nothing hinders the writes of a bundle and of its manifest. */
  ghost predicate AllUnhindered(
      attempts: Path -> Attempt, bundle: seq<BundleFile>, temporaries: map<Temporary, Content>)
  {
    && (forall f <- bundle :: Unhindered(attempts(f.path), f.path, temporaries))
    && Unhindered(attempts(BUNDLE_MANIFEST), BUNDLE_MANIFEST, temporaries)
  }

  /** The same for a file of the bundle. */
  ghost predicate LeavesPartOfSome(
      before: map<Temporary, Content>, after: map<Temporary, Content>, bundle: seq<BundleFile>)
  {
    exists f <- bundle :: LeavesAtMostOne(before, after, f.path, f.content)
  }

  /** The files are those after some prefix of the bundle. */
  ghost predicate AfterSome(
      before: Files, previous: Option<Manifest>, force: bool, bundle: seq<BundleFile>, files: Files)
  {
    exists n | 0 <= n <= |bundle| :: files == After(before, previous, force, bundle, n)
  }

  lemma StoppedInFile(
      before: Files, previous: Option<Manifest>, force: bool, bundle: seq<BundleFile>, i: nat, files: Files,
      temporaries: map<Temporary, Content>, temporaries': map<Temporary, Content>)
    requires i < |bundle|
    requires var f, there := bundle[i], After(before, previous, force, bundle, i);
      || (files == there && LeavesAtMostOne(temporaries, temporaries', f.path, f.content))
      || (files == Merged(there, previous, force, f) && temporaries' == temporaries)
    ensures AfterSome(before, previous, force, bundle, files)
    ensures LeavesPartOfSome(temporaries, temporaries', bundle)
  {
    assert || files == After(before, previous, force, bundle, i)
           || files == After(before, previous, force, bundle, i + 1);
    assert bundle[i] in bundle;
  }

  lemma SomeBecame(before: Files, stored: Option<Manifest>, force: bool, bundle: seq<BundleFile>, files: Files)
    requires Distinct(bundle) && AfterSome(before, ReadManifest(stored), force, bundle, files)
    ensures exists n | 0 <= n <= |bundle| :: Became(before, stored, force, bundle, n, files)
  {
    var n :| 0 <= n <= |bundle| && files == After(before, ReadManifest(stored), force, bundle, n);
    AfterBecame(before, stored, force, bundle, n);
  }

  /** After the last file, the index-wise statements are those about the whole bundle. */
  lemma AllFilesDone(files: Files, bundle: seq<BundleFile>)
    requires forall j | 0 <= j < |bundle| :: bundle[j].path in files
    ensures forall f <- bundle :: f.path in files
    ensures FirstCurrent(files, bundle, |bundle|) <==> Current(files, bundle)
  {
    if FirstCurrent(files, bundle, |bundle|) {
      assert Current(files, bundle);
    }
  }

  class OperatorRoot {
    var files: Files
    var manifest: Option<Manifest>
    var directories: set<Path>
    var temporaries: map<Temporary, Content>

    constructor (files: Files, manifest: Option<Manifest>)
      ensures this.files == files && this.manifest == manifest && directories == {} && temporaries == map[]
    {
      this.files, this.manifest, directories, temporaries := files, manifest, {}, map[];
    }

    /** Create the missing directories above a path, the outermost first. */
    method CreateParents(p: Path, fate: Fate) returns (ok: bool)
      modifies this`directories
      ensures ok <==> !StopsAt(fate, CreatingParents)
      ensures old(directories) <= directories <= old(directories) + Parents(p, |p|)
      ensures ok ==> Parents(p, |p|) <= directories
    {
      ok := !StopsAt(fate, CreatingParents);
      var i := 0;
      while i < |p|
        invariant 0 <= i <= |p|
        invariant directories == old(directories) + Parents(p, i)
        invariant Parents(p, i) <= Parents(p, |p|)
      {
        if fate == Stops(CreatingParents, i) { return; }
        if p[i] == '/' { directories := directories + {p[..i]}; }
        i := i + 1;
        ParentsGrow(p, i, |p|);
      }
    }

    /** Write and sync a temporary file, under a name that nothing else has. */
    method WriteTemporary(p: Path, c: Content, attempt: Attempt) returns (ok: bool)
      modifies this`directories, this`temporaries
      ensures ok ==> Temporary(p, attempt.id) !in old(temporaries)
      ensures ok ==> temporaries == old(temporaries)[Temporary(p, attempt.id) := c]
      ensures ok ==> Parents(p, |p|) <= directories
      ensures !ok ==> LeavesAtMostOne(old(temporaries), temporaries, p, c)
      ensures ok ==> attempt.fate.Completes? || StopsAt(attempt.fate, Renaming) || StopsAt(attempt.fate, Returning)
      ensures Unhindered(attempt, p, old(temporaries)) ==> ok
    {
      var fate, t := attempt.fate, Temporary(p, attempt.id);
      ok := CreateParents(p, fate);
      if !ok || StopsAt(fate, Opening) || t in temporaries { return false; }
      temporaries := temporaries[t := ""];
      var n := 0;
      while n < |c|
        invariant 0 <= n <= |c|
        invariant temporaries == old(temporaries)[t := c[..n]]
        invariant LeavesAtMostOne(old(temporaries), temporaries, p, c)
        invariant ok && Parents(p, |p|) <= directories
      {
        if fate == Stops(Writing, n) { return false; }
        temporaries := temporaries[t := temporaries[t] + [c[n]]];
        n := n + 1;
        assert c[..n] == c[..n - 1] + [c[n - 1]];
        assert temporaries == old(temporaries)[t := c[..n]];
      }
      assert c[..n] == c;
      ok := !StopsAt(fate, Writing) && !StopsAt(fate, Syncing);
    }

    /**
     Replace a file by renaming a finished temporary file. However this ends, the file is the old
     one or the new one, and only a failed write leaves a temporary file behind.
     */
    method AtomicWrite(p: Path, c: Content, attempt: Attempt) returns (ok: bool)
      modifies this`files, this`directories, this`temporaries
      ensures || (files == old(files) && LeavesAtMostOne(old(temporaries), temporaries, p, c))
              || (files == old(files)[p := Readable(c)] && temporaries == old(temporaries))
      ensures ok ==> files == old(files)[p := Readable(c)] && temporaries == old(temporaries)
      ensures ok ==> Parents(p, |p|) <= directories
      ensures ok <==> Unhindered(attempt, p, old(temporaries))
    {
      var t := Temporary(p, attempt.id);
      ok := WriteTemporary(p, c, attempt);
      if !ok { return; }
      if StopsAt(attempt.fate, Renaming) {
        assert c[..|c|] == c;
        return false;
      }
      files := files[p := Readable(temporaries[t])];
      temporaries := temporaries - {t};
      ok := !StopsAt(attempt.fate, Returning);
    }

    /** The manifest is replaced in the same way; what a manifest is written as is left open. */
    method WriteManifest(m: Manifest, text: Content, attempt: Attempt) returns (ok: bool)
      modifies this`manifest, this`directories, this`temporaries
      ensures || (manifest == old(manifest) && LeavesAtMostOne(old(temporaries), temporaries, BUNDLE_MANIFEST, text))
              || (manifest == Some(m) && temporaries == old(temporaries))
      ensures ok ==> manifest == Some(m) && temporaries == old(temporaries)
      ensures ok <==> Unhindered(attempt, BUNDLE_MANIFEST, old(temporaries))
    {
      var t := Temporary(BUNDLE_MANIFEST, attempt.id);
      ok := WriteTemporary(BUNDLE_MANIFEST, text, attempt);
      if !ok { return; }
      if StopsAt(attempt.fate, Renaming) {
        assert text[..|text|] == text;
        return false;
      }
      manifest := Some(m);
      temporaries := temporaries - {t};
      ok := !StopsAt(attempt.fate, Returning);
    }

    method MaterializeFile(
        f: BundleFile, force: bool, previous: Option<Manifest>, attempt: Attempt,
        next: map<Path, Digest>, report: Report)
        returns (ok: bool, next': map<Path, Digest>, report': Report)
      modifies this`files, this`directories, this`temporaries
      ensures || (files == old(files) && LeavesAtMostOne(old(temporaries), temporaries, f.path, f.content))
              || (files == Merged(old(files), previous, force, f) && temporaries == old(temporaries))
      ensures ok ==> files == Merged(old(files), previous, force, f) && temporaries == old(temporaries)
      ensures ok ==> next' == next[f.path := Sha256(f.content)]
      ensures ok ==> f.path in files && report' == Report1(report, old(files), files, f)
      ensures ok ==> report'.created == report.created + (if f.path in old(files) then [] else [f.path])
      ensures ok && f.path in old(files) ==>
        && report'.replaced == report.replaced + (if files[f.path] != old(files)[f.path] then [f.path] else [])
        && report'.skipped == report.skipped + (if files[f.path] != old(files)[f.path] then [] else [f.path])
      ensures Unhindered(attempt, f.path, old(temporaries)) ==> ok
    {
      next', report' := next, report;
      var desired := Sha256(f.content);
      var actual := ActualHash(files, f.path);
      var recorded := PreviousHash(previous, f.path);
      var managed := force || actual.None? || actual == Some(desired) || (recorded.Some? && actual == recorded);
      if managed {
        if actual == Some(desired) {
          report' := report.(skipped := report.skipped + [f.path]);
        } else {
          var existed := f.path in files;
          ok := AtomicWrite(f.path, f.content, attempt);
          if !ok { return; }
          if existed {
            report' := report.(replaced := report.replaced + [f.path]);
          } else {
            report' := report.(created := report.created + [f.path]);
          }
        }
      } else {
        report' := report.(skipped := report.skipped + [f.path], bundleCurrent := false);
      }
      next' := next[f.path := desired];
      ok := true;
    }

    /** The files of a bundle, one after the other. */
    method InstallFiles(
        bundle: seq<BundleFile>, force: bool, previous: Option<Manifest>, attempts: Path -> Attempt)
        returns (ok: bool, next: map<Path, Digest>, report: Report)
      requires Distinct(bundle)
      modifies this`files, this`directories, this`temporaries
      ensures ok ==> temporaries == old(temporaries)
      ensures ok ==> Progress(old(files), previous, force, bundle, |bundle|, files, next, report)
      ensures ok ==> Tells(report, old(files), files, bundle)
      ensures !ok ==>
        && AfterSome(old(files), previous, force, bundle, files)
        && LeavesPartOfSome(old(temporaries), temporaries, bundle)
      ensures (forall f <- bundle :: Unhindered(attempts(f.path), f.path, old(temporaries))) ==> ok
    {
      report := Report([], [], [], true);
      next := map[];
      ghost var before := files;
      var i := 0;
      while i < |bundle|
        invariant 0 <= i <= |bundle|
        invariant temporaries == old(temporaries)
        invariant Progress(before, previous, force, bundle, i, files, next, report)
      {
        var f := bundle[i];
        ghost var files0, next0, report0 := files, next, report;
        ok, next, report := MaterializeFile(f, force, previous, attempts(f.path), next, report);
        if !ok {
          StoppedInFile(before, previous, force, bundle, i, files, old(temporaries), temporaries);
          return;
        }
        OneMoreFile(before, previous, force, bundle, i, files0, next0, report0, files, next, report);
        i := i + 1;
      }
      ReportedTells(before, files, bundle, |bundle|);
      assert bundle[..|bundle|] == bundle;
      ok := true;
    }

    /**
     Install a bundle. A write that fails or is stopped ends the installation: the files are then
     those after some prefix of the bundle, and the manifest is the old one, unless the end came
     after the manifest was renamed, when all files are in place. The report lists what was not there
     as created, what was there and has changed as replaced, and what has not as skipped.
     */
    method Install(
        bundle: seq<BundleFile>, version: string, force: bool, text: Manifest -> Content, attempts: Path -> Attempt)
        returns (r: Option<Report>)
      requires Distinct(bundle)
      modifies this
      ensures var previous := ReadManifest(old(manifest));
        if r.Some? then
          && files == After(old(files), previous, force, bundle, |bundle|)
          && manifest == Some(ManifestOf(version, bundle))
          && temporaries == old(temporaries)
          && (forall f <- bundle :: f.path in files)
          && Tells(r.value, old(files), files, bundle)
          && (r.value.bundleCurrent <==> Current(files, bundle))
        else
          || (&& manifest == old(manifest)
              && AfterSome(old(files), previous, force, bundle, files))
          || (&& manifest == Some(ManifestOf(version, bundle))
              && files == After(old(files), previous, force, bundle, |bundle|))
      ensures exists n | 0 <= n <= |bundle| :: Became(old(files), old(manifest), force, bundle, n, files)
      ensures manifest == old(manifest) || Lists(manifest, version, bundle)
      ensures r.Some? ==> Became(old(files), old(manifest), force, bundle, |bundle|, files) && Lists(manifest, version, bundle)
      ensures || LeavesPartOfSome(old(temporaries), temporaries, bundle)
              || LeavesAtMostOne(old(temporaries), temporaries, BUNDLE_MANIFEST, text(ManifestOf(version, bundle)))
      ensures AllUnhindered(attempts, bundle, old(temporaries)) ==> r.Some?
    {
      var previous := ReadManifest(manifest);
      var ok, next, report := InstallFiles(bundle, force, previous, attempts);
      if !ok {
        SomeBecame(old(files), manifest, force, bundle, files);
        return None;
      }
      AllFilesDone(files, bundle);
      AfterBecame(old(files), manifest, force, bundle, |bundle|);
      ManifestLists(version, bundle);
      var m := Manifest(1, version, next);
      ok := WriteManifest(m, text(m), attempts(BUNDLE_MANIFEST));
      r := if ok then Some(report) else None;
    }
  }

  lemma {:induction false} ParentsGrow(p: Path, i: nat, n: nat)
    requires i <= n <= |p|
    ensures Parents(p, i) <= Parents(p, n)
  {
    if i < n { ParentsGrow(p, i, n - 1); }
  }

  // ---------------------------------------------------------------- crashes

  /** Files that agree at every path are the same. */
  lemma SameFiles(a: Files, b: Files)
    requires forall p :: (p in a <==> p in b) && (p in a ==> a[p] == b[p])
    ensures a == b
  {}

  /**
   Stopping after `n` files and starting over, even to stop again after `m`, gives the files of a
   single run that stopped after the larger of the two.
   */
  lemma RestartContinues(
      files: Files, previous: Option<Manifest>, force: bool, bundle: seq<BundleFile>, n: nat, m: nat)
    requires Distinct(bundle) && n <= |bundle| && m <= |bundle|
    ensures After(After(files, previous, force, bundle, n), previous, force, bundle, m)
         == After(files, previous, force, bundle, if n < m then m else n)
  {
    var max := if n < m then m else n;
    var crashed := After(files, previous, force, bundle, n);
    var again, once := After(crashed, previous, force, bundle, m), After(files, previous, force, bundle, max);
    forall p ensures (p in again <==> p in once) && (p in again ==> again[p] == once[p]) {
      if i :| 0 <= i < max && bundle[i].path == p {
        AfterAt(files, previous, force, bundle, max, i);
        if i < n {
          AfterAt(files, previous, force, bundle, n, i);
        } else {
          AfterOutside(files, previous, force, bundle, n, p);
        }
        if i < m {
          AfterAt(crashed, previous, force, bundle, m, i);
        } else {
          AfterOutside(crashed, previous, force, bundle, m, p);
        }
      } else {
        AfterOutside(files, previous, force, bundle, n, p);
        AfterOutside(crashed, previous, force, bundle, m, p);
        AfterOutside(files, previous, force, bundle, max, p);
      }
    }
    SameFiles(again, once);
  }

  /** A completed installation is idempotent: with its own manifest, nothing is left to change. */
  lemma CompletedIsIdempotent(
      files: Files, stored: Option<Manifest>, force: bool, bundle: seq<BundleFile>, version: string, m: nat)
    requires Distinct(bundle) && m <= |bundle|
    ensures
      var done := After(files, ReadManifest(stored), force, bundle, |bundle|);
      After(done, ReadManifest(Some(ManifestOf(version, bundle))), force, bundle, m) == done
  {
    var previous := ReadManifest(stored);
    var next := ReadManifest(Some(ManifestOf(version, bundle)));
    var done := After(files, previous, force, bundle, |bundle|);
    var again := After(done, next, force, bundle, m);
    forall p ensures (p in again <==> p in done) && (p in again ==> again[p] == done[p]) {
      if i :| 0 <= i < |bundle| && bundle[i].path == p {
        AfterAt(files, previous, force, bundle, |bundle|, i);
        RecordedAt(bundle, |bundle|, p);
        if i < m {
          AfterAt(done, next, force, bundle, m, i);
        } else {
          AfterOutside(done, next, force, bundle, m, p);
        }
      } else {
        AfterOutside(done, next, force, bundle, m, p);
      }
    }
    SameFiles(again, done);
  }

  // ---------------------------------------------------------------- upgrades, edits and crashes

  datatype State = State(files: Files, manifest: Option<Manifest>)

  /** An installation either completes or stops after `n` files; an edit may also delete a file. */
  datatype Event =
    | Install(bundle: seq<BundleFile>, version: string, force: bool)
    | Crash(bundle: seq<BundleFile>, n: nat, force: bool)
    | Edit(path: Path, file: Option<File>)

  ghost predicate Sensible(ev: Event) {
    match ev
    case Install(bundle, _, _) => Distinct(bundle)
    case Crash(bundle, n, _) => Distinct(bundle) && n <= |bundle|
    case Edit(_, _) => true
  }

  function Next(s: State, ev: Event): State
    requires ev.Crash? ==> ev.n <= |ev.bundle|
  {
    match ev
    case Install(bundle, version, force) =>
      State(After(s.files, ReadManifest(s.manifest), force, bundle, |bundle|), Some(ManifestOf(version, bundle)))
    case Crash(bundle, n, force) =>
      State(After(s.files, ReadManifest(s.manifest), force, bundle, n), s.manifest)
    case Edit(p, file) =>
      State(if file.Some? then s.files[p := file.value] else s.files - {p}, s.manifest)
  }

  /** The state after a history of events, from a directory without a manifest. */
  ghost function Replay(files: Files, history: seq<Event>): State
    requires forall ev <- history :: Sensible(ev)
  {
    if history == [] then State(files, None)
    else
      var n := |history| - 1;
      assert Sensible(history[n]);
      Next(Replay(files, history[..n]), history[n])
  }

  lemma ReplaySnoc(files: Files, history: seq<Event>, ev: Event)
    requires (forall e <- history :: Sensible(e)) && Sensible(ev)
    ensures forall e <- history + [ev] :: Sensible(e)
    ensures Replay(files, history + [ev]) == Next(Replay(files, history), ev)
  {
    assert (history + [ev])[..|history|] == history;
  }

  /** The contents that installed bundles have shipped for a path. */
  ghost predicate EverShipped(history: seq<Event>, p: Path, c: Content) {
    exists ev <- history :: ev.Install? && Ships(ev.bundle, p, c)
  }

  /** The manifest only records contents that were shipped. */
  lemma {:induction false} RecordedWasShipped(files: Files, history: seq<Event>, p: Path)
    requires forall ev <- history :: Sensible(ev)
    ensures
      var previous := ReadManifest(Replay(files, history).manifest);
      PreviousHash(previous, p).Some? ==> EverShipped(history, p, PreviousHash(previous, p).value.of)
  {
    if history != [] {
      var n := |history| - 1;
      var ev := history[n];
      assert Sensible(ev);
      if ev.Install? {
        RecordedAt(ev.bundle, |ev.bundle|, p);
        if p in Recorded(ev.bundle, |ev.bundle|) {
          var i :| 0 <= i < |ev.bundle| && ev.bundle[i].path == p;
          assert Ships(ev.bundle, p, ev.bundle[i].content);
        }
      } else {
        RecordedWasShipped(files, history[..n], p);
        var previous := ReadManifest(Replay(files, history).manifest);
        if PreviousHash(previous, p).Some? {
          var was :| was in history[..n] && was.Install? && Ships(was.bundle, p, PreviousHash(previous, p).value.of);
          assert was in history;
        }
      }
    }
  }

  /** Exactly when an installation step that is not forced takes a file away from the operator. */
  lemma OverwritesExactlyWhen(s: State, bundle: seq<BundleFile>, n: nat, i: nat)
    requires Distinct(bundle) && i < n <= |bundle| && bundle[i].path in s.files
    ensures
      var p, previous := bundle[i].path, ReadManifest(s.manifest);
      var after := After(s.files, previous, false, bundle, n);
      && p in after
      && (after[p] != s.files[p] <==>
           || s.files[p].Unreadable?
           || (s.files[p].content != bundle[i].content && PreviousHash(previous, p) == Some(Sha256(s.files[p].content))))
  {
    AfterAt(s.files, ReadManifest(s.manifest), false, bundle, n, i);
  }

  /**
   Operator edits survive: after any history, an installation that is not forced, whether it
   completes or not, keeps every readable file whose content was never shipped for its path.
   */
  lemma EditsSurvive(files: Files, history: seq<Event>, ev: Event, p: Path)
    requires (forall e <- history :: Sensible(e)) && Sensible(ev)
    requires (ev.Install? || ev.Crash?) && !ev.force
    requires var s := Replay(files, history);
      p in s.files && s.files[p].Readable? && !EverShipped(history, p, s.files[p].content)
    ensures
      var s := Replay(files, history);
      p in Next(s, ev).files && Next(s, ev).files[p] == s.files[p]
  {
    var s := Replay(files, history);
    var previous := ReadManifest(s.manifest);
    var n := if ev.Install? then |ev.bundle| else ev.n;
    RecordedWasShipped(files, history, p);
    if i :| 0 <= i < n && ev.bundle[i].path == p {
      OverwritesExactlyWhen(s, ev.bundle, n, i);
      AfterAt(s.files, previous, false, ev.bundle, n, i);
    } else {
      AfterOutside(s.files, previous, false, ev.bundle, n, p);
    }
  }

  /** What the model adds to that: an edited file the installer cannot read is replaced. */
  lemma UnreadableEditIsLost(p: Path, edited: Content, shipped: Content)
    ensures
      var s := Replay(map[], [Edit(p, Some(Unreadable(edited)))]);
      var s' := Next(s, Install([BundleFile(p, shipped)], "2", false));
      p in s.files && s.files[p] == Unreadable(edited) && s'.files == map[p := Readable(shipped)]
  {
    var edit := Edit(p, Some(Unreadable(edited)));
    ReplaySnoc(map[], [], edit);
    assert [] + [edit] == [edit];
    var bundle := [BundleFile(p, shipped)];
    var s := Replay(map[], [edit]);
    assert After(s.files, None, false, bundle, 0) == s.files;
    assert After(s.files, None, false, bundle, 1) == map[p := Readable(shipped)];
  }

  // ---------------------------------------------------------------- files nobody edits

  /** What a bundle ships for a path. */
  ghost function Shipped(bundle: seq<BundleFile>, p: Path): Option<Content> {
    if i :| 0 <= i < |bundle| && bundle[i].path == p then Some(bundle[i].content) else None
  }

  /** What the last installation of a history shipped for a path. */
  ghost function Newest(history: seq<Event>, p: Path): Option<Content> {
    if history == [] then None
    else
      var n := |history| - 1;
      if history[n].Install? then Shipped(history[n].bundle, p) else Newest(history[..n], p)
  }

  /** What an installation that stops after `n` files has shipped for a path. */
  ghost function ShippedWithin(bundle: seq<BundleFile>, n: nat, p: Path): Option<Content>
    requires n <= |bundle|
  {
    Shipped(bundle[..n], p)
  }

  /** Every completed installation ships `p`, and nobody edits it; installations may stop anywhere. */
  ghost predicate ShippedThroughout(history: seq<Event>, p: Path) {
    forall ev <- history :: (ev.Install? ==> Shipped(ev.bundle, p).Some?) && (ev.Edit? ==> ev.path != p)
  }

  /**
   The content by which a file is ahead of the manifest: an interrupted installation has put it
   there, unless it is what the manifest has anyway. While a file is ahead, only a forced
   installation moves it; a completed one that is forced, or ships that content, catches up.
   */
  ghost function Ahead(history: seq<Event>, p: Path): Option<Content>
    requires forall ev <- history :: Sensible(ev)
  {
    if history == [] then None
    else
      var n := |history| - 1;
      assert Sensible(history[n]);
      var ahead := Ahead(history[..n], p);
      match history[n]
      case Install(bundle, _, force) =>
        if force || ahead == Shipped(bundle, p) then None else ahead
      case Crash(bundle, m, force) =>
        var d := ShippedWithin(bundle, m, p);
        if d.None? || (ahead.Some? && !force) then ahead
        else if d == Newest(history[..n], p) then None
        else d
      case Edit(_, _) => ahead
  }

  /** What a path holds, and what the manifest records for it. */
  ghost predicate Stands(s: State, p: Path, held: Option<Content>, recorded: Option<Content>) {
    && (if held.None? then p !in s.files else p in s.files && s.files[p] == Readable(held.value))
    && PreviousHash(ReadManifest(s.manifest), p)
       == (if recorded.None? then None else Some(Sha256(recorded.value)))
  }

  ghost predicate InStep(s: State, p: Path, c: Option<Content>) {
    Stands(s, p, c, c)
  }

  /** What one merge makes of a path that holds and has recorded what is said. */
  function MergedContent(held: Option<Content>, recorded: Option<Content>, force: bool, d: Content): Content {
    if force || held.None? || held == recorded then d else held.value
  }

  lemma InstallStands(s: State, bundle: seq<BundleFile>, version: string, force: bool, p: Path,
      held: Option<Content>, recorded: Option<Content>)
    requires Distinct(bundle) && Shipped(bundle, p).Some? && Stands(s, p, held, recorded)
    ensures var d := Shipped(bundle, p).value;
            Stands(Next(s, Install(bundle, version, force)), p, Some(MergedContent(held, recorded, force, d)), Some(d))
  {
    var i :| 0 <= i < |bundle| && bundle[i].path == p && Shipped(bundle, p) == Some(bundle[i].content);
    AfterAt(s.files, ReadManifest(s.manifest), force, bundle, |bundle|, i);
    RecordedAt(bundle, |bundle|, p);
  }

  lemma CrashStands(s: State, bundle: seq<BundleFile>, n: nat, force: bool, p: Path,
      held: Option<Content>, recorded: Option<Content>)
    requires Distinct(bundle) && n <= |bundle| && Stands(s, p, held, recorded)
    ensures var d := ShippedWithin(bundle, n, p);
            Stands(Next(s, Crash(bundle, n, force)), p,
              if d.None? then held else Some(MergedContent(held, recorded, force, d.value)), recorded)
  {
    var d := ShippedWithin(bundle, n, p);
    if d.Some? {
      var i :| 0 <= i < n && bundle[..n][i].path == p && d == Some(bundle[..n][i].content);
      AfterAt(s.files, ReadManifest(s.manifest), force, bundle, n, i);
    } else {
      assert forall i | 0 <= i < n :: bundle[i] == bundle[..n][i];
      AfterOutside(s.files, ReadManifest(s.manifest), force, bundle, n, p);
    }
  }

  /**
   Where a file stands that every completed installation ships and nobody edits, over histories
   with crashes: at the newest completed bundle, unless it is ahead of the manifest.
   */
  lemma {:induction false} UneditedIsAheadOrNewest(files: Files, history: seq<Event>, p: Path)
    requires (forall ev <- history :: Sensible(ev)) && ShippedThroughout(history, p) && p !in files
    ensures var ahead, newest := Ahead(history, p), Newest(history, p);
            && Stands(Replay(files, history), p, if ahead.Some? then ahead else newest, newest)
            && (ahead.Some? ==> ahead != newest)
  {
    if history != [] {
      var n := |history| - 1;
      var ev := history[n];
      assert Sensible(ev);
      assert forall e <- history[..n] :: e in history;
      UneditedIsAheadOrNewest(files, history[..n], p);
      var s, ahead, newest := Replay(files, history[..n]), Ahead(history[..n], p), Newest(history[..n], p);
      var held := if ahead.Some? then ahead else newest;
      match ev
      case Install(bundle, version, force) => InstallStands(s, bundle, version, force, p, held, newest);
      case Crash(bundle, m, force) => CrashStands(s, bundle, m, force, p, held, newest);
      case Edit(_, _) =>
    }
  }

  /**
   Exactly when an upgrade brings such a file to the new bundle, over histories with crashes: it is
   forced, or no interrupted upgrade has put the file ahead, or the new bundle ships that content.
   */
  lemma UpgradeReachesExactly(files: Files, history: seq<Event>, upgrade: Event, p: Path)
    requires (forall ev <- history :: Sensible(ev)) && ShippedThroughout(history, p) && p !in files
    requires upgrade.Install? && Sensible(upgrade) && Shipped(upgrade.bundle, p).Some?
    ensures
      var s := Next(Replay(files, history), upgrade);
      var d, ahead := Shipped(upgrade.bundle, p), Ahead(history, p);
      p in s.files && (s.files[p] == Readable(d.value) <==> upgrade.force || ahead.None? || ahead == d)
  {
    UneditedIsAheadOrNewest(files, history, p);
    var ahead, newest := Ahead(history, p), Newest(history, p);
    InstallStands(Replay(files, history), upgrade.bundle, upgrade.version, upgrade.force, p,
      if ahead.Some? then ahead else newest, newest);
  }

  /** Completing an interrupted upgrade settles it: the same bundle again, wherever it stopped. */
  lemma CompletingSettles(history: seq<Event>, bundle: seq<BundleFile>, n: nat, version: string,
      force: bool, force': bool, p: Path)
    requires (forall ev <- history :: Sensible(ev)) && Distinct(bundle) && n <= |bundle|
    requires Shipped(bundle, p).Some? && Ahead(history, p).None?
    ensures var more := history + [Crash(bundle, n, force)] + [Install(bundle, version, force')];
            (forall ev <- more :: Sensible(ev)) && Ahead(more, p).None?
  {
    var crash, install := Crash(bundle, n, force), Install(bundle, version, force');
    var crashed := history + [crash];
    assert crashed[..|history|] == history && (crashed + [install])[..|crashed|] == crashed;
    if i :| 0 <= i < n && bundle[..n][i].path == p {
      assert bundle[i].path == p;
    }
  }

  /** `p` is shipped by every bundle of the history, no installation crashes, and nobody edits `p`. */
  ghost predicate AlwaysShipped(history: seq<Event>, p: Path) {
    ShippedThroughout(history, p) && forall ev <- history :: !ev.Crash?
  }

  lemma {:induction false} NothingAheadWithoutCrashes(history: seq<Event>, p: Path)
    requires (forall ev <- history :: Sensible(ev)) && AlwaysShipped(history, p)
    ensures Ahead(history, p).None?
  {
    if history != [] { NothingAheadWithoutCrashes(history[..|history| - 1], p); }
  }

  /** A file that is always shipped and never edited is the newest bundle's. */
  lemma UneditedIsNewest(files: Files, history: seq<Event>, p: Path)
    requires (forall ev <- history :: Sensible(ev)) && AlwaysShipped(history, p) && p !in files
    ensures InStep(Replay(files, history), p, Newest(history, p))
  {
    NothingAheadWithoutCrashes(history, p);
    UneditedIsAheadOrNewest(files, history, p);
  }

  /**
   A crash in between breaks that: an upgrade to `b` that stops before its manifest, followed by
   an upgrade to `c`, leaves a file nobody edited at `b`.
   */
  lemma CrashStrandsFile(p: Path, a: Content, b: Content, c: Content)
    requires a != b && b != c
    ensures
      var history := [Install([BundleFile(p, a)], "1", false),
                      Crash([BundleFile(p, b)], 1, false),
                      Install([BundleFile(p, c)], "3", false)];
      (forall ev <- history :: Sensible(ev)) && Replay(map[], history).files == map[p := Readable(b)]
  {
    var install, crash, upgrade :=
      Install([BundleFile(p, a)], "1", false), Crash([BundleFile(p, b)], 1, false), Install([BundleFile(p, c)], "3", false);
    ReplaySnoc(map[], [], install);
    ReplaySnoc(map[], [install], crash);
    ReplaySnoc(map[], [install, crash], upgrade);
    assert [] + [install] == [install] && [install] + [crash] == [install, crash];
    assert [install, crash] + [upgrade] == [install, crash, upgrade];
    var s1, s2 := Replay(map[], [install]), Replay(map[], [install, crash]);
    assert After(map[], None, false, install.bundle, 0) == map[];
    assert Recorded(install.bundle, 0) == map[];
    assert Recorded(install.bundle, 1) == map[p := Sha256(a)];
    assert s1 == State(map[p := Readable(a)], Some(Manifest(1, "1", map[p := Sha256(a)])));
    assert After(s1.files, s1.manifest, false, crash.bundle, 0) == s1.files;
    assert s2 == State(map[p := Readable(b)], s1.manifest);
    assert After(s2.files, s2.manifest, false, upgrade.bundle, 0) == s2.files;
    assert !Managed(s2.files, s2.manifest, false, BundleFile(p, c));
  }

  /** Exactly when an installation makes a path the bundle's: the test of the merge, at the start. */
  lemma InstallReachesExactlyManaged(s: State, bundle: seq<BundleFile>, version: string, force: bool, i: nat)
    requires Distinct(bundle) && i < |bundle|
    ensures
      var f := bundle[i];
      var s' := Next(s, Install(bundle, version, force));
      f.path in s'.files && (s'.files[f.path] == Readable(f.content) <==>
        Managed(s.files, ReadManifest(s.manifest), force, f))
  {
    AfterAt(s.files, ReadManifest(s.manifest), force, bundle, |bundle|, i);
  }
}
