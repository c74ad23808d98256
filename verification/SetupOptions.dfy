/**
 How `beampipe setup` reads the arguments that the installer hands to it, for the options that the
 installer builder of the documentation uses. The builder's commands have to say what its form says.
 */
module SetupOptions {
  import opened Options
  import opened ShellCommand
  import opened Text

  datatype Name =
    | Yes | Runtime | NoStart | Dashboard | Directory | Sample | ProjectConfig
    | AdminUser | AdminEmail | AdminPasswordFile | ApiPort | PostgresPort | MetricsPort

  /** The options that were given, with their values; a switch has none. */
  type Given = map<Name, Arg>

  function NameOf(text: string): Option<Name> {
    if text == "--yes" then Some(Yes)
    else if text == "--runtime" then Some(Name.Runtime)
    else if text == "--no-start" then Some(NoStart)
    else if text == "--dashboard" then Some(Dashboard)
    else if text == "--directory" then Some(Directory)
    else if text == "--sample" then Some(Sample)
    else if text == "--project-config" then Some(ProjectConfig)
    else if text == "--admin-user" then Some(AdminUser)
    else if text == "--admin-email" then Some(AdminEmail)
    else if text == "--admin-password-file" then Some(AdminPasswordFile)
    else if text == "--api-port" then Some(ApiPort)
    else if text == "--postgres-port" then Some(PostgresPort)
    else if text == "--metrics-port" then Some(MetricsPort)
    else None
  }

  predicate IsSwitch(n: Name) {
    n.Yes? || n.NoStart? || n.Dashboard?
  }

  /** The text of an argument without home directories in it. */
  function TextOf(arg: Arg): Option<string> {
    if forall i | 0 <= i < |arg| :: arg[i].Char? then Some(seq(|arg|, i requires 0 <= i < |arg| => arg[i].c)) else None
  }

  lemma TextOfLiteral(text: string)
    ensures TextOf(Literally(text)) == Some(text)
  {
    assert TextOf(Literally(text)).Some?;
    assert TextOf(Literally(text)).value == text;
  }

  function OptionIn(arg: Arg): Option<Name> {
    if TextOf(arg).Some? then NameOf(TextOf(arg).value) else None
  }

  /** What starts with a hyphen is never the value of an option. */
  predicate LooksLikeOption(arg: Arg) {
    |arg| > 1 && arg[0] == Char('-')
  }

  /** The values that an option accepts. */
  predicate Accepts(n: Name, value: Arg) {
    match n
    case Runtime => value == Literally("docker") || value == Literally("host")
    case Sample => value == Literally("wallaby-hires")
    case _ => true
  }

  /** Options are read from left to right, each at most once. */
  function Parse(args: seq<Arg>, given: Given): Option<Given> {
    if args == [] then Some(given)
    else
      match OptionIn(args[0])
      case None => None
      case Some(n) =>
        if n in given then None
        else if IsSwitch(n) then Parse(args[1..], given[n := []])
        else if |args| < 2 || LooksLikeOption(args[1]) || !Accepts(n, args[1]) then None
        else Parse(args[2..], given[n := args[1]])
  }

  lemma ParseSwitch(name: string, n: Name, rest: seq<Arg>, given: Given)
    requires NameOf(name) == Some(n) && IsSwitch(n) && n !in given
    ensures Parse([Literally(name)] + rest, given) == Parse(rest, given[n := []])
  {
    TextOfLiteral(name);
    assert ([Literally(name)] + rest)[1..] == rest;
  }

  lemma ParseValue(name: string, n: Name, value: Arg, rest: seq<Arg>, given: Given)
    requires NameOf(name) == Some(n) && !IsSwitch(n) && n !in given
    ensures Parse([Literally(name), value] + rest, given) ==
            if LooksLikeOption(value) || !Accepts(n, value) then None else Parse(rest, given[n := value])
  {
    TextOfLiteral(name);
    assert ([Literally(name), value] + rest)[2..] == rest;
  }

  lemma NamesAre()
    ensures NameOf("--yes") == Some(Yes) && NameOf("--runtime") == Some(Name.Runtime)
    ensures NameOf("--no-start") == Some(NoStart) && NameOf("--dashboard") == Some(Dashboard)
    ensures NameOf("--directory") == Some(Directory) && NameOf("--sample") == Some(Sample)
    ensures NameOf("--project-config") == Some(ProjectConfig) && NameOf("--admin-user") == Some(AdminUser)
    ensures NameOf("--admin-email") == Some(AdminEmail) && NameOf("--admin-password-file") == Some(AdminPasswordFile)
    ensures NameOf("--api-port") == Some(ApiPort) && NameOf("--postgres-port") == Some(PostgresPort)
    ensures NameOf("--metrics-port") == Some(MetricsPort)
  {
  }

  // ---------------------------------------------------------------- lists of options

  /** An option that may be given or not, with the text of its name. */
  datatype Item = Item(name: string, n: Name, given: bool, value: Arg)

  function ArgsOfItem(item: Item): seq<Arg> {
    if !item.given then [] else if IsSwitch(item.n) then [Literally(item.name)] else [Literally(item.name), item.value]
  }

  function ArgsOf(items: seq<Item>): seq<Arg> {
    if items == [] then [] else ArgsOfItem(items[0]) + ArgsOf(items[1..])
  }

  lemma {:induction false} ArgsOfMore(items: seq<Item>, last: Item)
    ensures ArgsOf(items + [last]) == ArgsOf(items) + ArgsOfItem(last)
  {
    if items == [] {
      assert (items + [last])[1..] == [];
    } else {
      assert (items + [last])[1..] == items[1..] + [last];
      ArgsOfMore(items[1..], last);
    }
  }

  ghost predicate Named(items: seq<Item>) {
    && (forall i | 0 <= i < |items| :: NameOf(items[i].name) == Some(items[i].n))
    && (forall i, j | 0 <= i < j < |items| :: items[i].n != items[j].n)
  }

  predicate Acceptable(item: Item) {
    item.given && !IsSwitch(item.n) ==> !LooksLikeOption(item.value) && Accepts(item.n, item.value)
  }

  /** What has been read says of an option what its item says. */
  predicate Holds(given: Given, item: Item) {
    && (item.n in given <==> item.given)
    && (item.given ==> given[item.n] == if IsSwitch(item.n) then [] else item.value)
  }

  /** Reading a list of items came to this. */
  ghost predicate AreRead(items: seq<Item>, given: Given, read: Option<Given>) {
    && (read.Some? <==> forall i | 0 <= i < |items| :: Acceptable(items[i]))
    && (read.Some? ==>
          && (forall n <- given :: n in read.value && read.value[n] == given[n])
          && (forall n <- read.value :: n in given || exists i :: 0 <= i < |items| && items[i].n == n)
          && (forall i | 0 <= i < |items| :: Holds(read.value, items[i])))
  }

  function With(given: Given, item: Item): Given {
    if !item.given then given else given[item.n := if IsSwitch(item.n) then [] else item.value]
  }

  lemma OneMoreIsRead(first: Item, rest: seq<Item>, given: Given, read: Option<Given>)
    requires first.n !in given && (forall i | 0 <= i < |rest| :: rest[i].n != first.n)
    requires Acceptable(first) && AreRead(rest, With(given, first), read)
    ensures AreRead([first] + rest, given, read)
  {
    var items := [first] + rest;
    assert forall i | 0 <= i < |rest| :: items[i + 1] == rest[i];
    if read.Some? {
      forall n <- read.value ensures n in given || exists i :: 0 <= i < |items| && items[i].n == n {
        if n !in With(given, first) {
          var i :| 0 <= i < |rest| && rest[i].n == n;
          assert items[i + 1].n == n;
        } else {
          assert n in given || items[0].n == n;
        }
      }
    }
  }

  /** Any list of different options is read back, exactly if all values are acceptable. */
  lemma {:induction false} ItemsAreRead(items: seq<Item>, given: Given)
    requires Named(items) && forall i | 0 <= i < |items| :: items[i].n !in given
    ensures AreRead(items, given, Parse(ArgsOf(items), given))
  {
    if items != [] {
      var first, rest := items[0], items[1..];
      FirstIsRead(first, ArgsOf(rest), given);
      assert Named(rest) && forall i | 0 <= i < |rest| :: rest[i].n != first.n;
      assert items == [first] + rest;
      if Acceptable(first) {
        ItemsAreRead(rest, With(given, first));
        OneMoreIsRead(first, rest, given, Parse(ArgsOf(rest), With(given, first)));
      }
    }
  }

  lemma FirstIsRead(first: Item, rest: seq<Arg>, given: Given)
    requires NameOf(first.name) == Some(first.n) && first.n !in given
    ensures Parse(ArgsOfItem(first) + rest, given) ==
      if !first.given then Parse(rest, given)
      else if !Acceptable(first) then None
      else Parse(rest, With(given, first))
  {
    if !first.given { assert ArgsOfItem(first) + rest == rest; }
    else if IsSwitch(first.n) { ParseSwitch(first.name, first.n, rest, given); }
    else { ParseValue(first.name, first.n, first.value, rest, given); }
  }

  // ---------------------------------------------------------------- the form

  function TextItem(name: string, n: Name, value: string, meaning: Arg): Item {
    Item(name, n, value != "", meaning)
  }

  function HeadItems(f: Form): seq<Item> {
    [ Item("--yes", Yes, f.unattended, []),
      Item("--runtime", Name.Runtime, true, Literally(if f.runtime == Docker then "docker" else "host")),
      Item("--no-start", NoStart, !f.start, []),
      Item("--dashboard", Dashboard, f.dashboard && f.runtime == Docker, []),
      TextItem("--directory", Directory, f.directory, DirectoryMeant(f.directory)),
      Item("--sample", Sample, f.projectMode == "wallaby-hires", Literally("wallaby-hires")) ]
  }

  function FreeItems(f: Form): seq<Item> {
    [ Item("--project-config", ProjectConfig, f.projectMode == "custom" && f.projectConfig != "", Meaning(f.projectConfig)),
      TextItem("--admin-user", AdminUser, f.adminUser, Meaning(f.adminUser)),
      TextItem("--admin-email", AdminEmail, f.adminEmail, Meaning(f.adminEmail)),
      TextItem("--admin-password-file", AdminPasswordFile, f.adminPasswordFile, Meaning(f.adminPasswordFile)) ]
  }

  function PortItems(f: Form): seq<Item> {
    [ TextItem("--api-port", ApiPort, f.apiPort, Literally(f.apiPort)),
      TextItem("--postgres-port", PostgresPort, f.postgresPort, Literally(f.postgresPort)),
      TextItem("--metrics-port", MetricsPort, f.metricsPort, Literally(f.metricsPort)) ]
  }

  /** The options of a form, in the order of the command. */
  function FormItems(f: Form): seq<Item> {
    HeadItems(f) + FreeItems(f) + PortItems(f)
  }

  lemma {:induction false} ArgsOfConcat(a: seq<Item>, b: seq<Item>)
    ensures ArgsOf(a + b) == ArgsOf(a) + ArgsOf(b)
  {
    if b == [] {
      assert a + b == a;
    } else {
      var n := |b| - 1;
      assert a + b == (a + b[..n]) + [b[n]] && b == b[..n] + [b[n]];
      ArgsOfConcat(a, b[..n]);
      ArgsOfMore(a + b[..n], b[n]);
      ArgsOfMore(b[..n], b[n]);
    }
  }

  lemma TakesOneMore(items: seq<Item>, k: nat)
    requires k < |items|
    ensures ArgsOf(items[..k + 1]) == ArgsOf(items[..k]) + ArgsOfItem(items[k])
  {
    assert items[..k + 1] == items[..k] + [items[k]];
    ArgsOfMore(items[..k], items[k]);
  }

  /** A short list, one item after the other. */
  lemma OneByOne(items: seq<Item>, a: seq<seq<Arg>>)
    requires 3 <= |items| == |a| <= 6 && forall i | 0 <= i < |items| :: a[i] == ArgsOfItem(items[i])
    ensures |a| == 3 ==> ArgsOf(items) == a[0] + a[1] + a[2]
    ensures |a| == 4 ==> ArgsOf(items) == a[0] + a[1] + a[2] + a[3]
    ensures |a| == 6 ==> ArgsOf(items) == a[0] + a[1] + a[2] + a[3] + a[4] + a[5]
  {
    assert ArgsOf(items[..0]) == [];
    forall k: nat | k < |items| ensures ArgsOf(items[..k + 1]) == ArgsOf(items[..k]) + ArgsOfItem(items[k]) {
      TakesOneMore(items, k);
    }
    assert ArgsOf(items[..1]) == a[0];
    assert items[..|items|] == items;
  }

  lemma FlagIsItem(name: string, n: Name, value: string, meaning: Arg)
    requires !IsSwitch(n)
    ensures Flag(name, value, meaning) == ArgsOfItem(TextItem(name, n, value, meaning))
  {
  }

  lemma HeadIs(f: Form)
    ensures HeadArgs(f) == ArgsOf(HeadItems(f))
  {
    var i := HeadItems(f);
    OneByOne(i, [ArgsOfItem(i[0]), ArgsOfItem(i[1]), ArgsOfItem(i[2]), ArgsOfItem(i[3]), ArgsOfItem(i[4]), ArgsOfItem(i[5])]);
  }

  lemma FreeIs(f: Form)
    ensures ArgsOf(FreeItems(f)) ==
      Flag("--project-config", ProjectFile(f), Meaning(ProjectFile(f))) + Flag("--admin-user", f.adminUser, Meaning(f.adminUser))
      + Flag("--admin-email", f.adminEmail, Meaning(f.adminEmail))
      + Flag("--admin-password-file", f.adminPasswordFile, Meaning(f.adminPasswordFile))
  {
    var i := FreeItems(f);
    var a := [Flag("--project-config", ProjectFile(f), Meaning(ProjectFile(f))), Flag("--admin-user", f.adminUser, Meaning(f.adminUser)),
              Flag("--admin-email", f.adminEmail, Meaning(f.adminEmail)),
              Flag("--admin-password-file", f.adminPasswordFile, Meaning(f.adminPasswordFile))];
    assert a[0] == ArgsOfItem(i[0]);
    FlagIsItem("--admin-user", AdminUser, f.adminUser, Meaning(f.adminUser));
    FlagIsItem("--admin-email", AdminEmail, f.adminEmail, Meaning(f.adminEmail));
    FlagIsItem("--admin-password-file", AdminPasswordFile, f.adminPasswordFile, Meaning(f.adminPasswordFile));
    OneByOne(i, a);
  }

  lemma PortsAre(f: Form)
    ensures ArgsOf(PortItems(f)) ==
      Flag("--api-port", f.apiPort, Literally(f.apiPort)) + Flag("--postgres-port", f.postgresPort, Literally(f.postgresPort))
      + Flag("--metrics-port", f.metricsPort, Literally(f.metricsPort))
  {
    var i := PortItems(f);
    OneByOne(i, [ArgsOfItem(i[0]), ArgsOfItem(i[1]), ArgsOfItem(i[2])]);
  }

  lemma Regroup(h: seq<Arg>, a: seq<Arg>, b: seq<Arg>, c: seq<Arg>, d: seq<Arg>, x: seq<Arg>, y: seq<Arg>, z: seq<Arg>)
    ensures h + a + b + c + d + x + y + z == h + (a + b + c + d) + (x + y + z)
  {
  }

  lemma PassedItems(f: Form)
    ensures Passed(f) == ArgsOf(FormItems(f))
  {
    HeadIs(f);
    FreeIs(f);
    PortsAre(f);
    ArgsOfConcat(HeadItems(f), FreeItems(f));
    ArgsOfConcat(HeadItems(f) + FreeItems(f), PortItems(f));
    Regroup(HeadArgs(f), Flag("--project-config", ProjectFile(f), Meaning(ProjectFile(f))),
      Flag("--admin-user", f.adminUser, Meaning(f.adminUser)), Flag("--admin-email", f.adminEmail, Meaning(f.adminEmail)),
      Flag("--admin-password-file", f.adminPasswordFile, Meaning(f.adminPasswordFile)),
      Flag("--api-port", f.apiPort, Literally(f.apiPort)), Flag("--postgres-port", f.postgresPort, Literally(f.postgresPort)),
      Flag("--metrics-port", f.metricsPort, Literally(f.metricsPort)));
  }

  /** Where an option stands in the command. */
  function Place(n: Name): nat {
    match n
    case Yes => 0 case Runtime => 1 case NoStart => 2 case Dashboard => 3 case Directory => 4 case Sample => 5
    case ProjectConfig => 6 case AdminUser => 7 case AdminEmail => 8 case AdminPasswordFile => 9
    case ApiPort => 10 case PostgresPort => 11 case MetricsPort => 12
  }

  /** The items of a part of the command have their names, and their places from `k` on. */
  ghost predicate Placed(items: seq<Item>, k: nat) {
    forall i | 0 <= i < |items| :: NameOf(items[i].name) == Some(items[i].n) && Place(items[i].n) == k + i
  }

  lemma HeadIsPlaced(f: Form)
    ensures Placed(HeadItems(f), 0)
  {
    NamesAre();
  }

  lemma FreeIsPlaced(f: Form)
    ensures Placed(FreeItems(f), 6)
  {
    NamesAre();
  }

  lemma PortsArePlaced(f: Form)
    ensures Placed(PortItems(f), 10)
  {
    NamesAre();
  }

  lemma PlacedAreNamed(items: seq<Item>, k: nat)
    requires Placed(items, k)
    ensures Named(items)
  {
  }

  lemma ItemsAreNamed(f: Form)
    ensures Named(FormItems(f))
  {
    HeadIsPlaced(f);
    FreeIsPlaced(f);
    PortsArePlaced(f);
    PlacedTogether(HeadItems(f), FreeItems(f), 0);
    PlacedTogether(HeadItems(f) + FreeItems(f), PortItems(f), 0);
    PlacedAreNamed(FormItems(f), 0);
  }

  lemma PlacedTogether(a: seq<Item>, b: seq<Item>, k: nat)
    requires Placed(a, k) && Placed(b, k + |a|)
    ensures Placed(a + b, k)
  {
  }

  predicate StartsWithHyphen(text: string) {
    |text| > 1 && text[0] == '-'
  }

  lemma MeaningStarts(text: string)
    ensures LooksLikeOption(Meaning(text)) <==> StartsWithHyphen(text)
  {
  }

  /** No free text of the form would be taken for an option. */
  predicate NoHyphens(f: Form) {
    && !(f.projectMode == "custom" && StartsWithHyphen(f.projectConfig))
    && !StartsWithHyphen(f.adminUser) && !StartsWithHyphen(f.adminEmail) && !StartsWithHyphen(f.adminPasswordFile)
  }

  lemma PortIsNoOption(port: string)
    requires port == "" || IsPort(port)
    ensures !LooksLikeOption(Literally(port))
  {
  }

  lemma HeadIsAcceptable(f: Form)
    requires ValidationError(f).None?
    ensures forall i | 0 <= i < |HeadItems(f)| :: Acceptable(HeadItems(f)[i])
  {
    assert Literally(if f.runtime == Docker then "docker" else "host")[0] != Char('-');
    assert Literally("wallaby-hires")[0] != Char('-');
    assert f.directory != "" ==> !LooksLikeOption(DirectoryMeant(f.directory));
  }

  lemma FreeTextIsAcceptable(name: string, n: Name, given: bool, text: string)
    requires n in {ProjectConfig, AdminUser, AdminEmail, AdminPasswordFile}
    ensures Acceptable(Item(name, n, given, Meaning(text))) <==> !(given && StartsWithHyphen(text))
  {
    MeaningStarts(text);
  }

  lemma FourAre(items: seq<Item>)
    requires |items| == 4
    ensures (forall i | 0 <= i < |items| :: Acceptable(items[i])) <==>
            Acceptable(items[0]) && Acceptable(items[1]) && Acceptable(items[2]) && Acceptable(items[3])
  {
  }

  lemma FreeIsAcceptable(f: Form)
    ensures (forall i | 0 <= i < |FreeItems(f)| :: Acceptable(FreeItems(f)[i])) <==> NoHyphens(f)
  {
    FreeTextIsAcceptable("--project-config", ProjectConfig, f.projectMode == "custom" && f.projectConfig != "", f.projectConfig);
    FreeTextIsAcceptable("--admin-user", AdminUser, f.adminUser != "", f.adminUser);
    FreeTextIsAcceptable("--admin-email", AdminEmail, f.adminEmail != "", f.adminEmail);
    FreeTextIsAcceptable("--admin-password-file", AdminPasswordFile, f.adminPasswordFile != "", f.adminPasswordFile);
    FourAre(FreeItems(f));
  }

  lemma PortsAreAcceptable(f: Form)
    requires ValidationError(f).None?
    ensures forall i | 0 <= i < |PortItems(f)| :: Acceptable(PortItems(f)[i])
  {
    PortIsNoOption(f.apiPort);
    PortIsNoOption(f.postgresPort);
    PortIsNoOption(f.metricsPort);
  }

  lemma AcceptableTogether(a: seq<Item>, b: seq<Item>, c: seq<Item>, all: seq<Item>)
    requires all == a + b + c
    ensures (forall i | 0 <= i < |all| :: Acceptable(all[i])) <==>
      && (forall i | 0 <= i < |a| :: Acceptable(a[i]))
      && (forall i | 0 <= i < |b| :: Acceptable(b[i]))
      && (forall i | 0 <= i < |c| :: Acceptable(c[i]))
  {
    assert forall i | 0 <= i < |a| :: a[i] == all[i];
    assert forall i | 0 <= i < |b| :: b[i] == all[|a| + i];
    assert forall i | 0 <= i < |c| :: c[i] == all[|a| + |b| + i];
  }

  lemma ItemsAreAcceptable(f: Form)
    requires ValidationError(f).None?
    ensures (forall i | 0 <= i < |FormItems(f)| :: Acceptable(FormItems(f)[i])) <==> NoHyphens(f)
  {
    HeadIsAcceptable(f);
    FreeIsAcceptable(f);
    PortsAreAcceptable(f);
    AcceptableTogether(HeadItems(f), FreeItems(f), PortItems(f), FormItems(f));
  }

  /** An option has this value, or was not given. */
  predicate Has(read: Given, n: Name, given: bool, value: Arg) {
    (n in read <==> given) && (given ==> read[n] == value)
  }

  predicate SaysChoices(read: Given, f: Form) {
    && (Yes in read <==> f.unattended)
    && Has(read, Name.Runtime, true, Literally(if f.runtime == Docker then "docker" else "host"))
    && (NoStart in read <==> !f.start)
    && (Dashboard in read <==> f.dashboard && f.runtime == Docker)
    && Has(read, Directory, f.directory != "", DirectoryMeant(f.directory))
    && Has(read, Sample, f.projectMode == "wallaby-hires", Literally("wallaby-hires"))
  }

  predicate SaysPorts(read: Given, f: Form) {
    && Has(read, ApiPort, f.apiPort != "", Literally(f.apiPort))
    && Has(read, PostgresPort, f.postgresPort != "", Literally(f.postgresPort))
    && Has(read, MetricsPort, f.metricsPort != "", Literally(f.metricsPort))
  }

  /** What setup has read is what the form says, with these arguments for its free texts. */
  predicate Says(read: Given, f: Form, project: Arg, user: Arg, email: Arg, passwordFile: Arg) {
    && SaysChoices(read, f)
    && Has(read, ProjectConfig, f.projectMode == "custom" && f.projectConfig != "", project)
    && Has(read, AdminUser, f.adminUser != "", user)
    && Has(read, AdminEmail, f.adminEmail != "", email)
    && Has(read, AdminPasswordFile, f.adminPasswordFile != "", passwordFile)
    && SaysPorts(read, f)
  }

  lemma PartsHold(read: Given, a: seq<Item>, b: seq<Item>, c: seq<Item>, all: seq<Item>)
    requires all == a + b + c && forall i | 0 <= i < |all| :: Holds(read, all[i])
    ensures forall i | 0 <= i < |a| :: Holds(read, a[i])
    ensures forall i | 0 <= i < |b| :: Holds(read, b[i])
    ensures forall i | 0 <= i < |c| :: Holds(read, c[i])
  {
    assert forall i | 0 <= i < |a| :: a[i] == all[i];
    assert forall i | 0 <= i < |b| :: b[i] == all[|a| + i];
    assert forall i | 0 <= i < |c| :: c[i] == all[|a| + |b| + i];
  }

  lemma HeadSays(read: Given, f: Form)
    requires forall i | 0 <= i < |HeadItems(f)| :: Holds(read, HeadItems(f)[i])
    ensures SaysChoices(read, f)
  {
    var a := HeadItems(f);
    assert Holds(read, a[0]) && Holds(read, a[1]) && Holds(read, a[2]) && Holds(read, a[3]) && Holds(read, a[4]) && Holds(read, a[5]);
  }

  lemma PortsSay(read: Given, f: Form)
    requires forall i | 0 <= i < |PortItems(f)| :: Holds(read, PortItems(f)[i])
    ensures SaysPorts(read, f)
  {
    var c := PortItems(f);
    assert Holds(read, c[0]) && Holds(read, c[1]) && Holds(read, c[2]);
  }

  lemma ItemsSay(read: Given, f: Form)
    requires forall i | 0 <= i < |FormItems(f)| :: Holds(read, FormItems(f)[i])
    ensures Says(read, f, Meaning(f.projectConfig), Meaning(f.adminUser), Meaning(f.adminEmail), Meaning(f.adminPasswordFile))
  {
    var b := FreeItems(f);
    PartsHold(read, HeadItems(f), b, PortItems(f), FormItems(f));
    HeadSays(read, f);
    assert Holds(read, b[0]) && Holds(read, b[1]) && Holds(read, b[2]) && Holds(read, b[3]);
    PortsSay(read, f);
  }

  /**
   The command that the builder shows for a valid form makes setup do what the form says: through the
   shell and the reading of the options, each one that was chosen arrives with its value and no other
   one does. It is refused exactly if a free text starts with a hyphen, and misread exactly where one
   starts with a bare tilde.
   */
  lemma CommandIsUnderstood(f: Form, command: string)
    requires ValidationError(f).None? && command == COMMAND_HEAD + Join(FlagTexts(f), " ")
    ensures Arguments(FlagsOf(command)).Some?
    ensures var read := Parse(Arguments(FlagsOf(command)).value, map[]);
      && (read.Some? <==> NoHyphens(f))
      && (read.Some? ==>
            Says(read.value, f, Meaning(f.projectConfig), Meaning(f.adminUser), Meaning(f.adminEmail), Meaning(f.adminPasswordFile)))
      && (read.Some? && NoBareTildes(f) ==>
            Says(read.value, f, Literally(f.projectConfig), Literally(f.adminUser), Literally(f.adminEmail),
                 Literally(f.adminPasswordFile)))
  {
    CommandIsRead(f, command, Join(FlagTexts(f), " "));
    PassedItems(f);
    ItemsAreNamed(f);
    ItemsAreAcceptable(f);
    ItemsAreRead(FormItems(f), map[]);
    var read := Parse(ArgsOf(FormItems(f)), map[]);
    if read.Some? {
      ItemsSay(read.value, f);
      if NoBareTildes(f) { LiteralTexts(f); }
    }
  }

  lemma LiteralTexts(f: Form)
    requires NoBareTildes(f)
    ensures f.projectMode == "custom" ==> Meaning(f.projectConfig) == Literally(f.projectConfig)
    ensures Meaning(f.adminUser) == Literally(f.adminUser) && Meaning(f.adminEmail) == Literally(f.adminEmail)
    ensures Meaning(f.adminPasswordFile) == Literally(f.adminPasswordFile)
  {
  }
}
