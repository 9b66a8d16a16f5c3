/**
 Isolation of the ROS environment: path variables lose every entry that belongs to a foreign
 overlay, and the packages a run needs must come from the workspace or the system.
 The file system is an argument: how a path is normalised, and which packages a prefix lists.
 */
module RosEnvironment {
  import opened Options
  import opened StableSort

  /** An absolute path, as its components. */
  type Path = seq<string>

  datatype Machine = Machine(
    normalize: string -> Path, packages: Path -> set<string>, hasMarker: (Path, string) -> bool)

  datatype Policy = Policy(
    workspaceInstall: Path, systemPrefix: Path, allowed: set<string>, required: seq<string>, audited: seq<string>)

  /** The variables isolation knows by name, and all others. */
  datatype Key =
    | AmentPrefixPath | CmakePrefixPath | ColconPrefixPath | LdLibraryPath | ExecutablePath | PkgConfigPath | PythonPath
    | AmentCurrentPrefix | ColconCurrentPrefix
    | Other(name: string)

  type Environment = map<Key, string>

  const PATH_KEYS := [
    AmentPrefixPath, CmakePrefixPath, ColconPrefixPath, LdLibraryPath, ExecutablePath, PkgConfigPath, PythonPath]

  predicate IsPathKey(key: Key) {
    !IsCurrentKey(key) && !key.Other?
  }

  predicate IsCurrentKey(key: Key) {
    key == AmentCurrentPrefix || key == ColconCurrentPrefix
  }

  // ----- Path lists -----

  function Split(s: string): (r: seq<string>)
    ensures r != []
  {
    if s == "" then [""]
    else
      var rest := Split(s[1..]);
      if s[0] == ':' then [""] + rest else [[s[0]] + rest[0]] + rest[1..]
  }

  function NotEmpty(): string -> bool {
    s => s != ""
  }

  function Entries(value: string): seq<string> {
    Filter(NotEmpty(), Split(value))
  }

  function EntriesAt(env: Environment, key: Key): seq<string> {
    if key in env then Entries(env[key]) else []
  }

  function Join(entries: seq<string>): string {
    if entries == [] then ""
    else if |entries| == 1 then entries[0]
    else entries[0] + ":" + Join(entries[1..])
  }

  ghost predicate IsEntry(s: string) {
    s != "" && ':' !in s
  }

  ghost predicate AreEntries(entries: seq<string>) {
    forall i :: 0 <= i < |entries| ==> IsEntry(entries[i])
  }

  lemma {:induction false} SplitWhole(s: string)
    requires ':' !in s
    ensures Split(s) == [s]
  {
    if s != "" {
      SplitWhole(s[1..]);
      assert [s[0]] + s[1..] == s;
    }
  }

  lemma {:induction false} SplitFirst(s: string, rest: string)
    requires ':' !in s
    ensures Split(s + ":" + rest) == [s] + Split(rest)
  {
    var all := s + ":" + rest;
    if s == "" {
      assert all[1..] == rest;
    } else {
      SplitFirst(s[1..], rest);
      assert all[1..] == s[1..] + ":" + rest;
      assert [s[0]] + s[1..] == s;
    }
  }

  lemma {:induction false} SplitJoined(entries: seq<string>)
    requires entries != [] && AreEntries(entries)
    ensures Split(Join(entries)) == entries
  {
    if |entries| == 1 {
      SplitWhole(entries[0]);
    } else {
      SplitJoined(entries[1..]);
      SplitFirst(entries[0], Join(entries[1..]));
    }
  }

  /** Writing a list of entries and reading it back gives the same list. */
  lemma EntriesRoundTrip(entries: seq<string>)
    requires AreEntries(entries)
    ensures Entries(Join(entries)) == entries
  {
    if entries == [] {
      assert Split("") == [""];
      assert [""][..0] == [];
    } else {
      SplitJoined(entries);
      FilterAll(NotEmpty(), entries);
    }
  }

  lemma {:induction false} PiecesHaveNoColon(s: string)
    ensures forall i :: 0 <= i < |Split(s)| ==> ':' !in Split(s)[i]
  {
    if s != "" {
      PiecesHaveNoColon(s[1..]);
    }
  }

  lemma EntriesAreEntries(s: string)
    ensures AreEntries(Entries(s))
  {
    PiecesHaveNoColon(s);
    FilterMembers(NotEmpty(), Split(s));
    forall i | 0 <= i < |Entries(s)|
      ensures IsEntry(Entries(s)[i])
    {
      assert Entries(s)[i] in Entries(s);
    }
  }

  // ----- Where a path lies -----

  predicate Within(path: Path, root: Path) {
    |root| <= |path| && path[..|root|] == root
  }

  function Name(path: Path): string {
    if path == [] then "" else path[|path| - 1]
  }

  function Parent(path: Path): Path {
    if path == [] then [] else path[..|path| - 1]
  }

  function InstallRoot(prefix: Path): Path {
    if Name(prefix) == "install" then prefix
    else if Name(Parent(prefix)) == "install" then Parent(prefix)
    else prefix
  }

  datatype Kind = Trusted | Allowed | Mixed | Foreign

  predicate IsTrusted(m: Machine, p: Policy, entry: string) {
    Within(m.normalize(entry), p.workspaceInstall) || Within(m.normalize(entry), p.systemPrefix)
  }

  function KindOf(m: Machine, p: Policy, entry: string): Kind {
    var packages := m.packages(m.normalize(entry));
    if IsTrusted(m, p, entry) then Trusted
    else if packages != {} && packages <= p.allowed then Allowed
    else if packages * p.allowed != {} then Mixed
    else Foreign
  }

  /** The directories a foreign prefix takes out with it. */
  function Overlays(m: Machine, entry: string): set<Path> {
    var root := InstallRoot(m.normalize(entry));
    {root} + if Name(root) == "install" then {Parent(root) + ["build"]} else {}
  }

  /** The build directories an allowed prefix brings in with it. */
  function BuildRoots(m: Machine, entry: string): set<Path> {
    var prefix := m.normalize(entry);
    var root := InstallRoot(prefix);
    if Name(root) != "install" then {}
    else set package | package in m.packages(prefix) :: Parent(root) + ["build", package]
  }

  function HasKind(m: Machine, p: Policy, kinds: set<Kind>): string -> bool {
    entry => KindOf(m, p, entry) in kinds
  }

  // ----- Sorting the prefixes -----

  datatype Collected = Collected(
    retained: seq<string>, removed: seq<string>, allowedPrefixes: set<Path>, buildRoots: set<Path>, excluded: set<Path>)

  function AllowedPrefixes(m: Machine, p: Policy, ament: seq<string>): set<Path> {
    set entry | entry in ament && KindOf(m, p, entry) == Allowed :: m.normalize(entry)
  }

  function AllowedBuildRoots(m: Machine, p: Policy, ament: seq<string>): set<Path> {
    set entry, root | entry in ament && KindOf(m, p, entry) == Allowed && root in BuildRoots(m, entry) :: root
  }

  function ExcludedRoots(m: Machine, p: Policy, ament: seq<string>): set<Path> {
    set entry, root | entry in ament && KindOf(m, p, entry) == Foreign && root in Overlays(m, entry) :: root
  }

  function CollectedOf(m: Machine, p: Policy, ament: seq<string>): Collected {
    Collected(
      Filter(HasKind(m, p, {Trusted, Allowed}), ament), Filter(HasKind(m, p, {Foreign}), ament),
      AllowedPrefixes(m, p, ament), AllowedBuildRoots(m, p, ament), ExcludedRoots(m, p, ament))
  }

  predicate NoneMixed(m: Machine, p: Policy, ament: seq<string>) {
    forall i :: 0 <= i < |ament| ==> KindOf(m, p, ament[i]) != Mixed
  }

  lemma RetainedOneMore(m: Machine, p: Policy, ament: seq<string>, entry: string)
    ensures var keep := HasKind(m, p, {Trusted, Allowed});
            var kind := KindOf(m, p, entry);
            Filter(keep, ament + [entry]) ==
            if kind == Trusted || kind == Allowed then Filter(keep, ament) + [entry] else Filter(keep, ament)
  {
    FilterOneMore(HasKind(m, p, {Trusted, Allowed}), ament, entry);
  }

  lemma RemovedOneMore(m: Machine, p: Policy, ament: seq<string>, entry: string)
    ensures var keep := HasKind(m, p, {Foreign});
            Filter(keep, ament + [entry]) ==
            if KindOf(m, p, entry) == Foreign then Filter(keep, ament) + [entry] else Filter(keep, ament)
  {
    FilterOneMore(HasKind(m, p, {Foreign}), ament, entry);
  }

  lemma AllowedOneMore(m: Machine, p: Policy, ament: seq<string>, entry: string)
    ensures AllowedPrefixes(m, p, ament + [entry]) ==
            AllowedPrefixes(m, p, ament) + if KindOf(m, p, entry) == Allowed then {m.normalize(entry)} else {}
  {
  }

  lemma BuildRootsOneMore(m: Machine, p: Policy, ament: seq<string>, entry: string)
    ensures AllowedBuildRoots(m, p, ament + [entry]) ==
            AllowedBuildRoots(m, p, ament) + if KindOf(m, p, entry) == Allowed then BuildRoots(m, entry) else {}
  {
  }

  lemma ExcludedOneMore(m: Machine, p: Policy, ament: seq<string>, entry: string)
    ensures ExcludedRoots(m, p, ament + [entry]) ==
            ExcludedRoots(m, p, ament) + if KindOf(m, p, entry) == Foreign then Overlays(m, entry) else {}
  {
  }

  /** One more prefix sorted; a mixed one is not. */
  function Sorted(m: Machine, p: Policy, c: Collected, entry: string): Collected {
    match KindOf(m, p, entry)
    case Trusted => c.(retained := c.retained + [entry])
    case Allowed =>
      c.(retained := c.retained + [entry], allowedPrefixes := c.allowedPrefixes + {m.normalize(entry)},
         buildRoots := c.buildRoots + BuildRoots(m, entry))
    case Mixed => c
    case Foreign => c.(removed := c.removed + [entry], excluded := c.excluded + Overlays(m, entry))
  }

  lemma CollectOneMore(m: Machine, p: Policy, ament: seq<string>, entry: string)
    ensures CollectedOf(m, p, ament + [entry]) == Sorted(m, p, CollectedOf(m, p, ament), entry)
  {
    RetainedOneMore(m, p, ament, entry);
    RemovedOneMore(m, p, ament, entry);
    AllowedOneMore(m, p, ament, entry);
    BuildRootsOneMore(m, p, ament, entry);
    ExcludedOneMore(m, p, ament, entry);
    SortedIs(m, p, CollectedOf(m, p, ament), CollectedOf(m, p, ament + [entry]), entry);
  }

  lemma SortedIs(m: Machine, p: Policy, c: Collected, c': Collected, entry: string)
    requires var kind := KindOf(m, p, entry);
             && c'.retained == (if kind == Trusted || kind == Allowed then c.retained + [entry] else c.retained)
             && c'.removed == (if kind == Foreign then c.removed + [entry] else c.removed)
             && c'.allowedPrefixes == c.allowedPrefixes + (if kind == Allowed then {m.normalize(entry)} else {})
             && c'.buildRoots == c.buildRoots + (if kind == Allowed then BuildRoots(m, entry) else {})
             && c'.excluded == c.excluded + (if kind == Foreign then Overlays(m, entry) else {})
    ensures c' == Sorted(m, p, c, entry)
  {
  }

  method CollectOne(m: Machine, p: Policy, before: Collected, entry: string) returns (c: Collected, mixed: bool)
    ensures c == Sorted(m, p, before, entry) && mixed == (KindOf(m, p, entry) == Mixed)
  {
    c := before;
    var prefix := m.normalize(entry);
    if IsTrusted(m, p, entry) {
      return c.(retained := c.retained + [entry]), false;
    }
    var packages := m.packages(prefix);
    var root := InstallRoot(prefix);
    if packages != {} && packages <= p.allowed {
      c := c.(retained := c.retained + [entry], allowedPrefixes := c.allowedPrefixes + {prefix});
      if Name(root) == "install" {
        c := c.(buildRoots := c.buildRoots + set package | package in packages :: Parent(root) + ["build", package]);
      }
      return c, false;
    }
    if packages * p.allowed != {} {
      return c, true;
    }
    c := c.(removed := c.removed + [entry], excluded := c.excluded + {root});
    if Name(root) == "install" {
      c := c.(excluded := c.excluded + {Parent(root) + ["build"]});
    }
    assert c.excluded == before.excluded + Overlays(m, entry);
    return c, false;
  }

  /** Sorts the ament prefixes, stopping at the first that mixes allowed packages with others. */
  method Collect(m: Machine, p: Policy, ament: seq<string>) returns (c: Collected, mixed: Option<string>)
    ensures mixed == FirstMixed(m, p, ament)
    ensures mixed.None? ==> c == CollectedOf(m, p, ament)
  {
    c := Collected([], [], {}, {}, {});
    NothingCollected(m, p);
    assert ament[..0] == [] && ament[0..] == ament;
    for i := 0 to |ament|
      invariant c == CollectedOf(m, p, ament[..i])
      invariant FirstMixed(m, p, ament) == FirstMixed(m, p, ament[i..])
    {
      assert ament[..i + 1] == ament[..i] + [ament[i]];
      MixedFrom(m, p, ament, i);
      CollectOneMore(m, p, ament[..i], ament[i]);
      var isMixed;
      c, isMixed := CollectOne(m, p, c, ament[i]);
      if isMixed {
        return c, Some(ament[i]);
      }
    }
    assert ament[..|ament|] == ament && ament[|ament|..] == [];
    mixed := None;
  }

  lemma NothingCollected(m: Machine, p: Policy)
    ensures CollectedOf(m, p, []) == Collected([], [], {}, {}, {})
  {
  }

  lemma MixedFrom(m: Machine, p: Policy, ament: seq<string>, i: nat)
    requires i < |ament|
    ensures FirstMixed(m, p, ament[i..]) ==
            if KindOf(m, p, ament[i]) == Mixed then Some(ament[i]) else FirstMixed(m, p, ament[i + 1..])
  {
    assert ament[i..][1..] == ament[i + 1..];
  }

  function FirstMixed(m: Machine, p: Policy, ament: seq<string>): Option<string> {
    if ament == [] then None
    else if KindOf(m, p, ament[0]) == Mixed then Some(ament[0])
    else FirstMixed(m, p, ament[1..])
  }

  lemma {:induction false} MixedIsFound(m: Machine, p: Policy, ament: seq<string>)
    ensures FirstMixed(m, p, ament).None? <==> NoneMixed(m, p, ament)
  {
    if ament != [] {
      MixedIsFound(m, p, ament[1..]);
      assert forall i :: 1 <= i < |ament| ==> ament[i] == ament[1..][i - 1];
    }
  }

  // ----- What stays -----

  function IsUnder(m: Machine, roots: set<Path>, entry: string): bool {
    exists root | root in roots :: Within(m.normalize(entry), root)
  }

  function Keeps(m: Machine, p: Policy, c: Collected): string -> bool {
    entry =>
      || IsTrusted(m, p, entry)
      || IsUnder(m, c.allowedPrefixes, entry) || IsUnder(m, c.buildRoots, entry)
      || !IsUnder(m, c.excluded, entry)
  }

  /** Whether a variable stays set. */
  predicate Stays(m: Machine, p: Policy, c: Collected, key: Key, value: string) {
    IsCurrentKey(key) ==> value == "" || Keeps(m, p, c)(value)
  }

  function NewValue(m: Machine, p: Policy, c: Collected, key: Key, value: string): string {
    if key != AmentPrefixPath && IsPathKey(key) then Join(Filter(Keeps(m, p, c), Entries(value))) else value
  }

  /** The environment after isolation. */
  function Narrowed(m: Machine, p: Policy, c: Collected, env: Environment): Environment {
    (map key | key in env && Stays(m, p, c, key, env[key]) :: NewValue(m, p, c, key, env[key]))
      [AmentPrefixPath := Join(c.retained)]
  }

  lemma PathKeysAreAll()
    ensures forall key :: key in PATH_KEYS <==> IsPathKey(key)
    ensures forall i, j :: 0 <= i < j < |PATH_KEYS| ==> PATH_KEYS[i] != PATH_KEYS[j]
  {
  }

  /** The variables in `done` are rewritten, the others as they were. */
  ghost predicate NarrowedIn(m: Machine, p: Policy, c: Collected, env: Environment, done: seq<Key>, r: Environment) {
    && r.Keys == env.Keys
    && forall key | key in env :: r[key] == if key in done then NewValue(m, p, c, key, env[key]) else env[key]
  }

  method NarrowPaths(m: Machine, p: Policy, c: Collected, env: Environment, keys: seq<Key>) returns (r: Environment)
    requires forall key :: key in keys <==> IsPathKey(key)
    requires forall i, j :: 0 <= i < j < |keys| ==> keys[i] != keys[j]
    ensures r.Keys == env.Keys && forall key | key in env :: r[key] == NewValue(m, p, c, key, env[key])
  {
    r := env;
    for i := 0 to |keys|
      invariant NarrowedIn(m, p, c, env, keys[..i], r)
    {
      assert keys[i] in keys && keys[..i + 1] == keys[..i] + [keys[i]] && keys[i] !in keys[..i];
      r := NarrowOne(m, p, c, env, keys[..i], keys[i], r);
    }
    assert keys[..|keys|] == keys;
  }

  method NarrowOne(
    m: Machine, p: Policy, c: Collected, ghost env: Environment, ghost done: seq<Key>, key: Key, before: Environment)
    returns (r: Environment)
    requires NarrowedIn(m, p, c, env, done, before) && key !in done && IsPathKey(key)
    ensures NarrowedIn(m, p, c, env, done + [key], r)
  {
    r := before;
    if key != AmentPrefixPath && key in r {
      r := r[key := Join(Filter(Keeps(m, p, c), Entries(r[key])))];
    }
  }

  method DropCurrent(m: Machine, p: Policy, c: Collected, env: Environment) returns (r: Environment)
    ensures forall key :: key in r <==> key in env && Stays(m, p, c, key, env[key])
    ensures forall key | key in r :: r[key] == env[key]
  {
    r := env;
    var keys := [AmentCurrentPrefix, ColconCurrentPrefix];
    for i := 0 to |keys|
      invariant forall key :: key in r <==> key in env && (key in keys[..i] ==> Stays(m, p, c, key, env[key]))
      invariant forall key | key in r :: r[key] == env[key]
    {
      var key := keys[i];
      assert keys[..i + 1] == keys[..i] + [key];
      if key in r && r[key] != "" && !Keeps(m, p, c)(r[key]) {
        r := r - {key};
      }
    }
    assert keys[..|keys|] == keys;
  }

  lemma NarrowedIs(m: Machine, p: Policy, c: Collected, env: Environment, r: Environment)
    requires forall key :: key in r <==> (key in env && Stays(m, p, c, key, env[key])) || key == AmentPrefixPath
    requires forall key | key in r ::
               r[key] == if key == AmentPrefixPath then Join(c.retained) else NewValue(m, p, c, key, env[key])
    ensures r == Narrowed(m, p, c, env)
  {
    var n := Narrowed(m, p, c, env);
    assert forall key :: key in n <==> key in r;
    assert r.Keys == n.Keys;
  }

  method Narrow(m: Machine, p: Policy, c: Collected, env: Environment) returns (r: Environment)
    ensures r == Narrowed(m, p, c, env)
  {
    r := env[AmentPrefixPath := Join(c.retained)];
    PathKeysAreAll();
    r := NarrowPaths(m, p, c, r, PATH_KEYS);
    r := DropCurrent(m, p, c, r);
    NarrowedIs(m, p, c, env, r);
  }

  // ----- Which prefix provides a package -----

  function Provides(m: Machine, package: string): string -> bool {
    entry => m.hasMarker(m.normalize(entry), package)
  }

  function Provider(m: Machine, prefixes: seq<string>, package: string): Option<string> {
    if prefixes == [] then None
    else if Provides(m, package)(prefixes[0]) then Some(prefixes[0])
    else Provider(m, prefixes[1..], package)
  }

  /** A required package is missing unless it is audited and some retained prefix provides it. */
  function IsMissing(m: Machine, p: Policy, prefixes: seq<string>): string -> bool {
    package => package !in p.audited || Provider(m, prefixes, package).None?
  }

  datatype Isolation =
    | Isolated(environment: Environment, removed: seq<string>, providers: map<string, Option<string>>)
    | MixedPrefix(entry: string)
    | MissingPackages(packages: seq<string>)

  function IsolationOf(m: Machine, p: Policy, env: Environment): Isolation {
    var ament := EntriesAt(env, AmentPrefixPath);
    var mixed := FirstMixed(m, p, ament);
    if mixed.Some? then MixedPrefix(mixed.value)
    else Audited(m, p, env, CollectedOf(m, p, ament))
  }

  function ProvidersOf(m: Machine, p: Policy, prefixes: seq<string>): map<string, Option<string>> {
    map package | package in p.audited :: Provider(m, prefixes, package)
  }

  function Audited(m: Machine, p: Policy, env: Environment, c: Collected): Isolation {
    var missing := Filter(IsMissing(m, p, c.retained), p.required);
    if missing != [] then MissingPackages(missing)
    else Isolated(Narrowed(m, p, c, env), c.removed, ProvidersOf(m, p, c.retained))
  }

  lemma RetainedAreEntries(m: Machine, p: Policy, value: string)
    ensures AreEntries(Filter(HasKind(m, p, {Trusted, Allowed}), Entries(value)))
  {
    EntriesAreEntries(value);
    FilteredAreEntries(HasKind(m, p, {Trusted, Allowed}), Entries(value));
  }

  lemma FilteredAreEntries(keep: string -> bool, entries: seq<string>)
    requires AreEntries(entries)
    ensures AreEntries(Filter(keep, entries))
  {
    var kept := Filter(keep, entries);
    FilterMembers(keep, entries);
    forall i | 0 <= i < |kept|
      ensures IsEntry(kept[i])
    {
      assert kept[i] in entries;
    }
  }

  method FindProviders(m: Machine, p: Policy, prefixes: seq<string>) returns (providers: map<string, Option<string>>)
    ensures providers == ProvidersOf(m, p, prefixes)
  {
    providers := map[];
    for i := 0 to |p.audited|
      invariant providers == map package | package in p.audited[..i] :: Provider(m, prefixes, package)
    {
      assert p.audited[..i + 1] == p.audited[..i] + [p.audited[i]];
      providers := providers[p.audited[i] := Provider(m, prefixes, p.audited[i])];
    }
    assert p.audited[..|p.audited|] == p.audited;
  }

  method Isolate(m: Machine, p: Policy, env: Environment) returns (result: Isolation)
    ensures result == IsolationOf(m, p, env)
  {
    var ament := EntriesAt(env, AmentPrefixPath);
    var c, mixed := Collect(m, p, ament);
    if mixed.Some? {
      return MixedPrefix(mixed.value);
    }
    var narrowed := Narrow(m, p, c, env);
    AmentEntriesAreRetained(m, p, env);
    var prefixes := Entries(narrowed[AmentPrefixPath]);
    var providers := FindProviders(m, p, prefixes);
    var missing := Filter(IsMissing(m, p, prefixes), p.required);
    if missing != [] {
      return MissingPackages(missing);
    }
    return Isolated(narrowed, c.removed, providers);
  }

  lemma AmentEntriesAreRetained(m: Machine, p: Policy, env: Environment)
    ensures var c := CollectedOf(m, p, EntriesAt(env, AmentPrefixPath));
            Entries(Join(c.retained)) == c.retained && AreEntries(c.retained)
  {
    if AmentPrefixPath in env {
      RetainedAreEntries(m, p, env[AmentPrefixPath]);
    }
    EntriesRoundTrip(CollectedOf(m, p, EntriesAt(env, AmentPrefixPath)).retained);
  }

  // ----- Order is kept, and nothing is added -----

  /** `a` picks entries of `b` at rising positions. */
  ghost predicate PicksAt(a: seq<string>, b: seq<string>, positions: seq<nat>) {
    && |positions| == |a|
    && (forall i :: 0 <= i < |a| ==> positions[i] < |b| && a[i] == b[positions[i]])
    && forall i, j :: 0 <= i < j < |a| ==> positions[i] < positions[j]
  }

  ghost predicate IsSublist(a: seq<string>, b: seq<string>) {
    exists positions: seq<nat> :: PicksAt(a, b, positions)
  }

  lemma {:induction false} FilterIsSublist(keep: string -> bool, s: seq<string>)
    ensures IsSublist(Filter(keep, s), s)
  {
    if s == [] {
      assert PicksAt([], s, []);
    } else {
      var init := s[..|s| - 1];
      FilterIsSublist(keep, init);
      var positions: seq<nat> :| PicksAt(Filter(keep, init), init, positions);
      if keep(s[|s| - 1]) {
        assert PicksAt(Filter(keep, s), s, positions + [|init|]);
      } else {
        assert PicksAt(Filter(keep, s), s, positions);
      }
    }
  }

  /** The entries of every path variable after isolation: those to be kept, in their order. */
  lemma PathsAreFiltered(m: Machine, p: Policy, env: Environment, key: Key)
    requires IsolationOf(m, p, env).Isolated? && IsPathKey(key)
    ensures var c := CollectedOf(m, p, EntriesAt(env, AmentPrefixPath));
            EntriesAt(IsolationOf(m, p, env).environment, key) ==
            Filter(if key == AmentPrefixPath then HasKind(m, p, {Trusted, Allowed}) else Keeps(m, p, c),
                   EntriesAt(env, key))
  {
    var c := CollectedOf(m, p, EntriesAt(env, AmentPrefixPath));
    if key == AmentPrefixPath {
      AmentEntriesAreRetained(m, p, env);
    } else if key in env {
      EntriesAreEntries(env[key]);
      FilteredAreEntries(Keeps(m, p, c), Entries(env[key]));
      EntriesRoundTrip(Filter(Keeps(m, p, c), Entries(env[key])));
    }
  }

  lemma PathsAreSublists(m: Machine, p: Policy, env: Environment, key: Key)
    requires IsolationOf(m, p, env).Isolated? && IsPathKey(key)
    ensures IsSublist(EntriesAt(IsolationOf(m, p, env).environment, key), EntriesAt(env, key))
  {
    PathsAreFiltered(m, p, env, key);
    FilterIsSublist(HasKind(m, p, {Trusted, Allowed}), EntriesAt(env, key));
    FilterIsSublist(Keeps(m, p, CollectedOf(m, p, EntriesAt(env, AmentPrefixPath))), EntriesAt(env, key));
  }

  /** Everything but the path variables and the two current prefixes is left alone. */
  lemma OthersAreUntouched(m: Machine, p: Policy, env: Environment, key: Key)
    requires IsolationOf(m, p, env).Isolated? && key.Other?
    ensures var env' := IsolationOf(m, p, env).environment;
            (key in env' <==> key in env) && (key in env ==> env'[key] == env[key])
  {
  }

  // ----- No foreign overlay survives -----

  /** Lies in an allowed prefix, or in the build directory of a package such a prefix lists. */
  ghost predicate Excused(m: Machine, p: Policy, ament: seq<string>, entry: string) {
    exists a :: a in ament && KindOf(m, p, a) == Allowed &&
      (Within(m.normalize(entry), m.normalize(a)) || IsUnder(m, BuildRoots(m, a), entry))
  }

  ghost predicate IsForeign(m: Machine, p: Policy, ament: seq<string>, entry: string) {
    exists a :: a in ament && KindOf(m, p, a) == Foreign && IsUnder(m, Overlays(m, a), entry)
  }

  lemma ExcusedIsUnder(m: Machine, p: Policy, ament: seq<string>, entry: string)
    ensures Excused(m, p, ament, entry) <==>
            IsUnder(m, AllowedPrefixes(m, p, ament), entry) || IsUnder(m, AllowedBuildRoots(m, p, ament), entry)
  {
    if Excused(m, p, ament, entry) {
      var a :| a in ament && KindOf(m, p, a) == Allowed &&
               (Within(m.normalize(entry), m.normalize(a)) || IsUnder(m, BuildRoots(m, a), entry));
      if Within(m.normalize(entry), m.normalize(a)) {
        assert m.normalize(a) in AllowedPrefixes(m, p, ament);
      } else {
        var root :| root in BuildRoots(m, a) && Within(m.normalize(entry), root);
        assert root in AllowedBuildRoots(m, p, ament);
      }
    }
    if IsUnder(m, AllowedBuildRoots(m, p, ament), entry) {
      var root :| root in AllowedBuildRoots(m, p, ament) && Within(m.normalize(entry), root);
      var a :| a in ament && KindOf(m, p, a) == Allowed && root in BuildRoots(m, a);
      assert IsUnder(m, BuildRoots(m, a), entry);
    }
  }

  lemma ForeignIsUnder(m: Machine, p: Policy, ament: seq<string>, entry: string)
    ensures IsForeign(m, p, ament, entry) <==> IsUnder(m, ExcludedRoots(m, p, ament), entry)
  {
    if IsForeign(m, p, ament, entry) {
      var a :| a in ament && KindOf(m, p, a) == Foreign && IsUnder(m, Overlays(m, a), entry);
      var root :| root in Overlays(m, a) && Within(m.normalize(entry), root);
      assert root in ExcludedRoots(m, p, ament);
    }
    if IsUnder(m, ExcludedRoots(m, p, ament), entry) {
      var root :| root in ExcludedRoots(m, p, ament) && Within(m.normalize(entry), root);
      var a :| a in ament && KindOf(m, p, a) == Foreign && root in Overlays(m, a);
      assert IsUnder(m, Overlays(m, a), entry);
    }
  }

  /**
   An entry is dropped from a path variable exactly when it lies under a removed overlay and is
   neither trusted nor excused by an allowed prefix.
   */
  lemma KeptExactly(m: Machine, p: Policy, ament: seq<string>, entry: string)
    ensures Keeps(m, p, CollectedOf(m, p, ament))(entry) <==>
            IsTrusted(m, p, entry) || Excused(m, p, ament, entry) || !IsForeign(m, p, ament, entry)
  {
    ExcusedIsUnder(m, p, ament, entry);
    ForeignIsUnder(m, p, ament, entry);
  }

  /** After isolation no entry of any path variable lies under a removed overlay without an excuse. */
  lemma NoForeignEntryStays(m: Machine, p: Policy, env: Environment, key: Key, entry: string)
    requires IsolationOf(m, p, env).Isolated? && IsPathKey(key)
    requires entry in EntriesAt(IsolationOf(m, p, env).environment, key)
    ensures var ament := EntriesAt(env, AmentPrefixPath);
            IsForeign(m, p, ament, entry) ==> IsTrusted(m, p, entry) || Excused(m, p, ament, entry)
  {
    var ament := EntriesAt(env, AmentPrefixPath);
    PathsAreFiltered(m, p, env, key);
    if key == AmentPrefixPath {
      RetainedIsExcused(m, p, ament, entry);
    } else {
      KeptIsExcused(m, p, ament, EntriesAt(env, key), entry);
    }
  }

  lemma KeptIsExcused(m: Machine, p: Policy, ament: seq<string>, entries: seq<string>, entry: string)
    requires entry in Filter(Keeps(m, p, CollectedOf(m, p, ament)), entries)
    ensures IsForeign(m, p, ament, entry) ==> IsTrusted(m, p, entry) || Excused(m, p, ament, entry)
  {
    FilterMembers(Keeps(m, p, CollectedOf(m, p, ament)), entries);
    KeptExactly(m, p, ament, entry);
  }

  lemma RetainedIsExcused(m: Machine, p: Policy, ament: seq<string>, entry: string)
    requires entry in Filter(HasKind(m, p, {Trusted, Allowed}), ament)
    ensures entry in ament &&
            (IsTrusted(m, p, entry) || (KindOf(m, p, entry) == Allowed && Excused(m, p, ament, entry)))
  {
    FilterMembers(HasKind(m, p, {Trusted, Allowed}), ament);
    assert HasKind(m, p, {Trusted, Allowed})(entry);
  }

  // ----- Required packages -----

  /** A listing that could be read names every package whose marker is there. */
  ghost predicate ListingsAreComplete(m: Machine) {
    forall path, package :: m.packages(path) != {} && m.hasMarker(path, package) ==> package in m.packages(path)
  }

  lemma {:induction false} ProviderIsFirst(m: Machine, prefixes: seq<string>, package: string)
    requires Provider(m, prefixes, package).Some?
    ensures exists i :: 0 <= i < |prefixes| && prefixes[i] == Provider(m, prefixes, package).value
              && Provides(m, package)(prefixes[i]) && forall k :: 0 <= k < i ==> !Provides(m, package)(prefixes[k])
  {
    if Provides(m, package)(prefixes[0]) {
      assert prefixes[0] == Provider(m, prefixes, package).value;
    } else {
      ProviderIsFirst(m, prefixes[1..], package);
      var i :| 0 <= i < |prefixes[1..]| && prefixes[1..][i] == Provider(m, prefixes[1..], package).value
               && Provides(m, package)(prefixes[1..][i])
               && forall k :: 0 <= k < i ==> !Provides(m, package)(prefixes[1..][k]);
      assert forall k :: 1 <= k < i + 1 ==> prefixes[k] == prefixes[1..][k - 1];
      assert prefixes[i + 1] == prefixes[1..][i];
    }
  }

  /** Every required package that is not allowed from outside comes from the workspace or the system. */
  lemma RequiredPackagesAreOurs(m: Machine, p: Policy, env: Environment, package: string)
    requires ListingsAreComplete(m) && IsolationOf(m, p, env).Isolated?
    requires package in p.required && package !in p.allowed
    ensures var r := IsolationOf(m, p, env);
            && package in r.providers && r.providers[package].Some?
            && var entry := r.providers[package].value;
               && entry in EntriesAt(r.environment, AmentPrefixPath)
               && IsTrusted(m, p, entry) && m.hasMarker(m.normalize(entry), package)
  {
    var ament := EntriesAt(env, AmentPrefixPath);
    var c := CollectedOf(m, p, ament);
    NothingMissing(m, p, c.retained, package);
    AmentEntriesAreRetained(m, p, env);
    RetainedProvider(m, p, ament, package);
  }

  lemma RetainedProvider(m: Machine, p: Policy, ament: seq<string>, package: string)
    requires ListingsAreComplete(m) && package !in p.allowed
    requires Provider(m, CollectedOf(m, p, ament).retained, package).Some?
    ensures var retained := CollectedOf(m, p, ament).retained;
            var entry := Provider(m, retained, package).value;
            entry in retained && IsTrusted(m, p, entry) && m.hasMarker(m.normalize(entry), package)
  {
    var retained := CollectedOf(m, p, ament).retained;
    ProviderIsFirst(m, retained, package);
    RetainedIsExcused(m, p, ament, Provider(m, retained, package).value);
  }

  lemma NothingMissing(m: Machine, p: Policy, prefixes: seq<string>, package: string)
    requires Filter(IsMissing(m, p, prefixes), p.required) == [] && package in p.required
    ensures package in p.audited && Provider(m, prefixes, package).Some?
  {
    FilterMembers(IsMissing(m, p, prefixes), p.required);
    assert !IsMissing(m, p, prefixes)(package);
  }

  lemma {:induction false} ProviderIsFound(m: Machine, prefixes: seq<string>, package: string)
    ensures Provider(m, prefixes, package).Some? <==> exists entry :: entry in prefixes && Provides(m, package)(entry)
  {
    if prefixes != [] {
      ProviderIsFound(m, prefixes[1..], package);
      assert prefixes == [prefixes[0]] + prefixes[1..];
    }
  }

  /** Some prefix that isolation retains provides the package. */
  ghost predicate IsProvided(m: Machine, p: Policy, ament: seq<string>, package: string) {
    exists entry :: entry in ament && KindOf(m, p, entry) in {Trusted, Allowed} && Provides(m, package)(entry)
  }

  lemma ProvidedByRetained(m: Machine, p: Policy, ament: seq<string>, package: string)
    ensures Provider(m, CollectedOf(m, p, ament).retained, package).Some? <==> IsProvided(m, p, ament, package)
  {
    var retained := CollectedOf(m, p, ament).retained;
    ProviderIsFound(m, retained, package);
    FilterMembers(HasKind(m, p, {Trusted, Allowed}), ament);
    assert forall entry :: HasKind(m, p, {Trusted, Allowed})(entry) <==> KindOf(m, p, entry) in {Trusted, Allowed};
  }

  lemma MissingExactly(m: Machine, p: Policy, ament: seq<string>)
    ensures Filter(IsMissing(m, p, CollectedOf(m, p, ament).retained), p.required) == [] <==>
            forall package | package in p.required :: package in p.audited && IsProvided(m, p, ament, package)
  {
    var missing := IsMissing(m, p, CollectedOf(m, p, ament).retained);
    FilterMembers(missing, p.required);
    forall package
      ensures missing(package) <==> !(package in p.audited && IsProvided(m, p, ament, package))
    {
      ProvidedByRetained(m, p, ament, package);
    }
    if Filter(missing, p.required) != [] {
      assert Filter(missing, p.required)[0] in Filter(missing, p.required);
    }
  }

  /**
   Isolation succeeds exactly when no prefix mixes allowed packages with others and every required
   package is audited and provided by a retained prefix. One that is not audited always fails it.
   */
  lemma IsolatedExactly(m: Machine, p: Policy, env: Environment)
    ensures var ament := EntriesAt(env, AmentPrefixPath);
            IsolationOf(m, p, env).Isolated? <==>
            && NoneMixed(m, p, ament)
            && forall package | package in p.required :: package in p.audited && IsProvided(m, p, ament, package)
  {
    MixedIsFound(m, p, EntriesAt(env, AmentPrefixPath));
    MissingExactly(m, p, EntriesAt(env, AmentPrefixPath));
  }

  // ----- Isolating twice -----

  /** Prefixes that were retained are all retained again, and exclude nothing. */
  lemma RetainedAgain(m: Machine, p: Policy, ament: seq<string>)
    requires forall i :: 0 <= i < |ament| ==> KindOf(m, p, ament[i]) in {Trusted, Allowed}
    ensures var c := CollectedOf(m, p, ament);
            c.retained == ament && c.removed == [] && c.excluded == {} && FirstMixed(m, p, ament).None?
  {
    FilterAll(HasKind(m, p, {Trusted, Allowed}), ament);
    FilterNone(HasKind(m, p, {Foreign}), ament);
    MixedIsFound(m, p, ament);
    forall entry | entry in ament
      ensures KindOf(m, p, entry) != Foreign
    {
      var i :| 0 <= i < |ament| && ament[i] == entry;
    }
    assert ExcludedRoots(m, p, ament) == {};
  }

  /** A variable whose value was written by isolation reads back as it is. */
  lemma ValueIsStable(m: Machine, p: Policy, c: Collected, c': Collected, key: Key, value: string)
    requires c'.excluded == {}
    ensures var v := NewValue(m, p, c, key, value);
            NewValue(m, p, c', key, v) == v && Stays(m, p, c', key, v)
  {
    if key != AmentPrefixPath && IsPathKey(key) {
      var kept := Filter(Keeps(m, p, c), Entries(value));
      EntriesAreEntries(value);
      FilteredAreEntries(Keeps(m, p, c), Entries(value));
      EntriesRoundTrip(kept);
      FilterAll(Keeps(m, p, c'), kept);
    }
  }

  lemma NarrowedTwice(m: Machine, p: Policy, c: Collected, c': Collected, env: Environment)
    requires c'.excluded == {} && c'.retained == c.retained
    ensures Narrowed(m, p, c', Narrowed(m, p, c, env)) == Narrowed(m, p, c, env)
  {
    var once := Narrowed(m, p, c, env);
    forall key | key in once && key != AmentPrefixPath
      ensures NewValue(m, p, c', key, once[key]) == once[key] && Stays(m, p, c', key, once[key])
    {
      ValueIsStable(m, p, c, c', key, env[key]);
    }
    NarrowedIs(m, p, c', once, once);
  }

  /** Isolating an isolated environment changes nothing and removes nothing. */
  lemma IsolatingTwice(m: Machine, p: Policy, env: Environment)
    requires IsolationOf(m, p, env).Isolated?
    ensures var r := IsolationOf(m, p, env);
            IsolationOf(m, p, r.environment) == r.(removed := [])
  {
    var c := CollectedOf(m, p, EntriesAt(env, AmentPrefixPath));
    var env' := Narrowed(m, p, c, env);
    AmentEntriesAreRetained(m, p, env);
    assert EntriesAt(env', AmentPrefixPath) == c.retained;
    RetainedKinds(m, p, EntriesAt(env, AmentPrefixPath));
    RetainedAgain(m, p, c.retained);
    AuditedTwice(m, p, env, c, CollectedOf(m, p, c.retained));
  }

  lemma RetainedKinds(m: Machine, p: Policy, ament: seq<string>)
    ensures var retained := CollectedOf(m, p, ament).retained;
            forall i :: 0 <= i < |retained| ==> KindOf(m, p, retained[i]) in {Trusted, Allowed}
  {
    var retained := CollectedOf(m, p, ament).retained;
    FilterMembers(HasKind(m, p, {Trusted, Allowed}), ament);
    forall i | 0 <= i < |retained|
      ensures KindOf(m, p, retained[i]) in {Trusted, Allowed}
    {
      assert HasKind(m, p, {Trusted, Allowed})(retained[i]);
    }
  }

  lemma AuditedTwice(m: Machine, p: Policy, env: Environment, c: Collected, c': Collected)
    requires c'.excluded == {} && c'.retained == c.retained && c'.removed == [] && Audited(m, p, env, c).Isolated?
    ensures Audited(m, p, Narrowed(m, p, c, env), c') == Audited(m, p, env, c).(removed := [])
  {
    NarrowedTwice(m, p, c, c', env);
  }

  // ----- In plain paths and package lists -----

  /** A path lies within a root exactly if it is the root followed by something, or nothing. */
  lemma WithinMeansBelow(path: Path, root: Path)
    ensures Within(path, root) <==> exists rest :: path == root + rest
  {
    if Within(path, root) {
      assert path == root + path[|root|..];
    }
  }

  /** A foreign prefix in a colcon workspace, merged or isolated, takes out its install and its build tree. */
  lemma OverlaysOfWorkspace(m: Machine, entry: string, workspace: Path, package: string)
    requires package != "install"
    requires m.normalize(entry) in {workspace + ["install"], workspace + ["install", package]}
    ensures Overlays(m, entry) == {workspace + ["install"], workspace + ["build"]}
  {
    var root := workspace + ["install"];
    assert InstallRoot(m.normalize(entry)) == root by {
      assert (workspace + ["install", package])[..|workspace| + 1] == root;
    }
    assert Name(root) == "install" && Parent(root) == workspace;
  }

  /** Any other foreign prefix takes out only itself. */
  lemma OverlaysElsewhere(m: Machine, entry: string)
    requires var prefix := m.normalize(entry); Name(prefix) != "install" && Name(Parent(prefix)) != "install"
    ensures Overlays(m, entry) == {m.normalize(entry)}
  {
  }

  /** An allowed prefix in a workspace brings in the build directories of exactly its packages. */
  lemma BuildRootsOfWorkspace(m: Machine, entry: string, workspace: Path, package: string, path: Path)
    requires package != "install"
    requires m.normalize(entry) in {workspace + ["install"], workspace + ["install", package]}
    ensures path in BuildRoots(m, entry) <==>
            exists listed :: listed in m.packages(m.normalize(entry)) && path == workspace + ["build", listed]
  {
    var root := workspace + ["install"];
    assert InstallRoot(m.normalize(entry)) == root by {
      assert (workspace + ["install", package])[..|workspace| + 1] == root;
    }
    assert Name(root) == "install" && Parent(root) == workspace;
  }

  predicate IsOurs(m: Machine, p: Policy, entry: string) {
    Within(m.normalize(entry), p.workspaceInstall) || Within(m.normalize(entry), p.systemPrefix)
  }

  /**
   What becomes of each ament prefix: kept if it is ours or lists only allowed packages and at least
   one, removed if it is not ours and lists no allowed package, each in its place.
   */
  lemma PrefixesExactly(m: Machine, p: Policy, env: Environment, entry: string)
    requires IsolationOf(m, p, env).Isolated?
    ensures var ament, r := EntriesAt(env, AmentPrefixPath), IsolationOf(m, p, env);
            var packages := m.packages(m.normalize(entry));
            && (entry in EntriesAt(r.environment, AmentPrefixPath) <==>
                entry in ament && (IsOurs(m, p, entry) || (packages != {} && packages <= p.allowed)))
            && (entry in r.removed <==> entry in ament && !IsOurs(m, p, entry) && packages * p.allowed == {})
  {
    var ament := EntriesAt(env, AmentPrefixPath);
    PathsAreFiltered(m, p, env, AmentPrefixPath);
    FilterMembers(HasKind(m, p, {Trusted, Allowed}), ament);
    FilterMembers(HasKind(m, p, {Foreign}), ament);
    KindsByPackages(m, p, entry);
    assert IsolationOf(m, p, env).removed == Filter(HasKind(m, p, {Foreign}), ament);
  }

  lemma KindsByPackages(m: Machine, p: Policy, entry: string)
    ensures var packages := m.packages(m.normalize(entry));
            && (HasKind(m, p, {Trusted, Allowed})(entry) <==>
                IsOurs(m, p, entry) || (packages != {} && packages <= p.allowed))
            && (HasKind(m, p, {Foreign})(entry) <==> !IsOurs(m, p, entry) && packages * p.allowed == {})
  {
    var packages := m.packages(m.normalize(entry));
    if packages != {} && packages <= p.allowed {
      var package :| package in packages;
      assert package in packages * p.allowed;
    }
  }

  /** Isolation is refused for a mixed prefix exactly if one that is not ours lists allowed packages beside others. */
  lemma MixedExactly(m: Machine, p: Policy, env: Environment)
    ensures IsolationOf(m, p, env).MixedPrefix? <==>
            exists entry :: entry in EntriesAt(env, AmentPrefixPath) && IsMixed(m, p, entry)
    ensures IsolationOf(m, p, env).MixedPrefix? ==>
              var found := IsolationOf(m, p, env).entry;
              found in EntriesAt(env, AmentPrefixPath) && IsMixed(m, p, found)
  {
    FirstMixedIsMixed(m, p, EntriesAt(env, AmentPrefixPath));
  }

  predicate IsMixed(m: Machine, p: Policy, entry: string) {
    var packages := m.packages(m.normalize(entry));
    !IsOurs(m, p, entry) && packages * p.allowed != {} && !(packages <= p.allowed)
  }

  lemma {:induction false} FirstMixedIsMixed(m: Machine, p: Policy, ament: seq<string>)
    ensures FirstMixed(m, p, ament).Some? <==> exists entry :: entry in ament && IsMixed(m, p, entry)
    ensures FirstMixed(m, p, ament).Some? ==>
              FirstMixed(m, p, ament).value in ament && IsMixed(m, p, FirstMixed(m, p, ament).value)
  {
    if ament != [] {
      assert ament == [ament[0]] + ament[1..];
      MixedByPackages(m, p, ament[0]);
      FirstMixedIsMixed(m, p, ament[1..]);
    }
  }

  lemma MixedByPackages(m: Machine, p: Policy, entry: string)
    ensures KindOf(m, p, entry) == Mixed <==> IsMixed(m, p, entry)
  {
  }

  /** The seven variables that are treated as lists of paths. */
  lemma SevenPathVariables(key: Key)
    ensures IsPathKey(key) <==>
            key in {AmentPrefixPath, CmakePrefixPath, ColconPrefixPath, LdLibraryPath, ExecutablePath, PkgConfigPath,
                    PythonPath}
  {
  }

  /** A current prefix stays exactly if it is empty or would be kept as an entry, and then unchanged. */
  lemma CurrentPrefixExactly(m: Machine, p: Policy, env: Environment, key: Key)
    requires IsolationOf(m, p, env).Isolated? && (key == AmentCurrentPrefix || key == ColconCurrentPrefix)
    ensures var ament, env' := EntriesAt(env, AmentPrefixPath), IsolationOf(m, p, env).environment;
            && (key in env' <==>
                && key in env
                && (env[key] == "" || IsTrusted(m, p, env[key]) || Excused(m, p, ament, env[key])
                    || !IsForeign(m, p, ament, env[key])))
            && (key in env' ==> env'[key] == env[key])
  {
    if key in env {
      KeptExactly(m, p, EntriesAt(env, AmentPrefixPath), env[key]);
    }
  }

  /** Colons separate entries, wherever they stand. */
  lemma ColonSeparates(a: string, b: string)
    ensures Entries(a + ":" + b) == Entries(a) + Entries(b)
  {
    SplitAtColon(a, b);
    FilterJoins(NotEmpty(), Split(a), Split(b));
  }

  lemma {:induction false} SplitAtColon(a: string, b: string)
    ensures Split(a + ":" + b) == Split(a) + Split(b)
  {
    var whole := a + ":" + b;
    if a == "" {
      assert whole[1..] == b;
    } else {
      assert whole[1..] == a[1..] + ":" + b;
      SplitAtColon(a[1..], b);
    }
  }

  lemma {:induction false} FilterJoins<T>(keep: T -> bool, a: seq<T>, b: seq<T>)
    ensures Filter(keep, a + b) == Filter(keep, a) + Filter(keep, b)
  {
    if b == [] {
      assert a + b == a;
    } else {
      var init, last := b[..|b| - 1], b[|b| - 1];
      FilterJoins(keep, a, init);
      FilterOneMore(keep, a + init, last);
      assert a + b == (a + init) + [last];
    }
  }

  /** A text without a colon is one entry, unless it is empty. */
  lemma PlainEntry(a: string)
    requires ':' !in a
    ensures Entries(a) == if a == "" then [] else [a]
  {
    SplitWhole(a);
    FilterOneMore(NotEmpty(), [], a);
    assert [a] == [] + [a];
  }

  /**
   After isolation nothing of a foreign colcon workspace is left in any path variable, install or
   build tree, unless it is ours or belongs to an allowed prefix.
   */
  lemma ForeignWorkspaceIsGone(
    m: Machine, p: Policy, env: Environment, key: Key, entry: string, foreign: string, workspace: Path, package: string)
    requires IsolationOf(m, p, env).Isolated? && IsPathKey(key) && package != "install"
    requires foreign in EntriesAt(env, AmentPrefixPath) && foreign in IsolationOf(m, p, env).removed
    requires m.normalize(foreign) in {workspace + ["install"], workspace + ["install", package]}
    requires Within(m.normalize(entry), workspace + ["install"]) || Within(m.normalize(entry), workspace + ["build"])
    requires !IsOurs(m, p, entry) && !Excused(m, p, EntriesAt(env, AmentPrefixPath), entry)
    ensures entry !in EntriesAt(IsolationOf(m, p, env).environment, key)
  {
    var ament := EntriesAt(env, AmentPrefixPath);
    PrefixesExactly(m, p, env, foreign);
    KindsByPackages(m, p, foreign);
    OverlaysOfWorkspace(m, foreign, workspace, package);
    assert KindOf(m, p, foreign) == Foreign;
    assert IsUnder(m, Overlays(m, foreign), entry);
    assert IsForeign(m, p, ament, entry);
    if entry in EntriesAt(IsolationOf(m, p, env).environment, key) {
      NoForeignEntryStays(m, p, env, key, entry);
    }
  }
}
