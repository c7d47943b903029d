/** The addon store: a registry file, the installed packages, and installs that either complete or are undone. */
module Addons {
  import opened Common
  import opened Semver

  datatype Source = Registry | Local

  datatype Entry = Entry(name: string, version: string, enabled: bool, source: Source)

  /** The files of one installed package. */
  type Package = string

  type Packages = map<string, Package>

  /** What one npm run did: whether it succeeded, and what `node_modules` holds afterwards, whatever that is. */
  datatype Npm = Npm(ok: bool, packages: Packages)

  datatype Validation = Validation(ok: bool, version: string)

  /** An install whose package name is known. `target` is the version the spec resolves to, if it could be found out;
      `uninstalled` is what a clean-up `npm uninstall` would leave. */
  datatype Request = Request(name: string, source: Source, enable: bool, target: Option<string>,
                             npm: Npm, validation: Validation, uninstalled: Packages)

  datatype Result = Installed(version: string) | Failed

  // ----- The registry list -----

  function IndexOf(reg: seq<Entry>, name: string): Option<nat> {
    if reg == [] then None
    else if reg[0].name == name then Some(0)
    else
      match IndexOf(reg[1..], name)
      case None => None
      case Some(i) => Some(i + 1)
  }

  lemma {:induction false} IndexOfIsFirst(reg: seq<Entry>, name: string)
    ensures IndexOf(reg, name).None? <==> forall i | 0 <= i < |reg| :: reg[i].name != name
    ensures var i := IndexOf(reg, name);
            i.Some? ==> i.value < |reg| && reg[i.value].name == name && forall j | 0 <= j < i.value :: reg[j].name != name
  {
    if reg != [] {
      IndexOfIsFirst(reg[1..], name);
      assert forall j | 1 <= j < |reg| :: reg[j] == reg[1..][j - 1];
    }
  }

  ghost predicate UniqueNames(reg: seq<Entry>) {
    forall i, j | 0 <= i < j < |reg| :: reg[i].name != reg[j].name
  }

  function Upsert(reg: seq<Entry>, e: Entry): seq<Entry> {
    IndexOfIsFirst(reg, e.name);
    var i := IndexOf(reg, e.name);
    if i.Some? then reg[i.value := e] else reg + [e]
  }

  /** Replacing keeps the position; names stay unique; nothing else changes. */
  lemma UpsertInPlace(reg: seq<Entry>, e: Entry)
    requires UniqueNames(reg)
    ensures var r := Upsert(reg, e);
            && UniqueNames(r) && |reg| <= |r|
            && (forall i | 0 <= i < |reg| :: r[i] == if reg[i].name == e.name then e else reg[i])
            && (if IndexOf(reg, e.name).Some? then |r| == |reg| else r == reg + [e])
  {
    IndexOfIsFirst(reg, e.name);
  }

  function Remove(reg: seq<Entry>, name: string): seq<Entry> {
    if reg == [] then []
    else if reg[0].name == name then Remove(reg[1..], name)
    else [reg[0]] + Remove(reg[1..], name)
  }

  lemma {:induction false} RemoveLength(reg: seq<Entry>, name: string)
    ensures |Remove(reg, name)| <= |reg|
    ensures |Remove(reg, name)| == |reg| <==> IndexOf(reg, name).None?
  {
    if reg != [] {
      RemoveLength(reg[1..], name);
    }
  }

  lemma {:induction false} RemoveAbsent(reg: seq<Entry>, name: string)
    requires IndexOf(reg, name).None?
    ensures Remove(reg, name) == reg
  {
    if reg != [] {
      RemoveAbsent(reg[1..], name);
      assert [reg[0]] + reg[1..] == reg;
    }
  }

  /** Exactly the entries with the name go. */
  lemma {:induction false} RemoveDrops(reg: seq<Entry>, name: string, e: Entry)
    ensures e in Remove(reg, name) <==> e in reg && e.name != name
  {
    if reg != [] {
      RemoveDrops(reg[1..], name, e);
      assert reg == [reg[0]] + reg[1..];
    }
  }

  lemma {:induction false} RemoveStaysUnique(reg: seq<Entry>, name: string)
    requires UniqueNames(reg)
    ensures UniqueNames(Remove(reg, name))
  {
    if reg != [] {
      RemoveStaysUnique(reg[1..], name);
      var rest := Remove(reg[1..], name);
      forall j | 0 <= j < |rest|
        ensures rest[j].name != reg[0].name
      {
        RemoveDrops(reg[1..], name, rest[j]);
        var k :| 0 <= k < |reg| - 1 && reg[1..][k] == rest[j];
        assert reg[k + 1] == rest[j];
      }
    }
  }

  // ----- The gate -----

  /** The target is known and lower than what is registered. */
  predicate Refused(reg: seq<Entry>, req: Request) {
    IndexOfIsFirst(reg, req.name);
    var i := IndexOf(reg, req.name);
    i.Some? && req.target.Some? && CompareSemver(req.target.value, reg[i.value].version) < 0
  }

  class Store {
    var registry: seq<Entry>
    var packages: Packages
    var rollbacks: map<nat, Package>

    constructor (registry: seq<Entry>, packages: Packages)
      ensures this.registry == registry && this.packages == packages && rollbacks == map[]
    {
      this.registry, this.packages, this.rollbacks := registry, packages, map[];
    }

    method UpsertEntry(e: Entry)
      modifies this`registry
      ensures registry == Upsert(old(registry), e)
    {
      IndexOfIsFirst(registry, e.name);
      var index := IndexOf(registry, e.name);
      if index.Some? {
        registry := registry[index.value := e];
      } else {
        registry := registry + [e];
      }
    }

    method RemoveEntry(name: string) returns (removed: bool)
      modifies this`registry
      ensures registry == Remove(old(registry), name)
      ensures removed <==> exists i :: 0 <= i < |old(registry)| && old(registry)[i].name == name
      ensures old(UniqueNames(registry)) ==> UniqueNames(registry)
    {
      RemoveLength(registry, name);
      IndexOfIsFirst(registry, name);
      if UniqueNames(registry) {
        RemoveStaysUnique(registry, name);
      }
      var next := Remove(registry, name);
      if |next| == |registry| {
        RemoveAbsent(registry, name);
        return false;
      }
      registry := next;
      return true;
    }

    method SetEntryEnabled(name: string, enabled: bool) returns (found: bool)
      modifies this`registry
      ensures found <==> exists i :: 0 <= i < |old(registry)| && old(registry)[i].name == name
      ensures |registry| == |old(registry)|
      ensures old(UniqueNames(registry)) ==>
                UniqueNames(registry) &&
                forall i | 0 <= i < |registry| ::
                  registry[i] == if old(registry)[i].name == name then old(registry)[i].(enabled := enabled) else old(registry)[i]
    {
      IndexOfIsFirst(registry, name);
      var index := IndexOf(registry, name);
      if index.None? {
        return false;
      }
      registry := registry[index.value := registry[index.value].(enabled := enabled)];
      return true;
    }

    /** Moves a package out of `node_modules`; `None` when it is not there. */
    method BackupAddonPackage(name: string) returns (backup: Option<nat>)
      modifies this`packages, this`rollbacks
      ensures name !in old(packages) ==> backup.None? && packages == old(packages) && rollbacks == old(rollbacks)
      ensures name in old(packages) ==>
                && backup.Some? && backup.value !in old(rollbacks)
                && packages == old(packages) - {name}
                && rollbacks == old(rollbacks)[backup.value := old(packages)[name]]
    {
      if name !in packages {
        return None;
      }
      FreshKey(rollbacks.Keys);
      var b: nat :| b !in rollbacks;
      rollbacks := rollbacks[b := packages[name]];
      packages := packages - {name};
      return Some(b);
    }

    /** Whatever npm left in its place is removed, and the package moved back. */
    method RestoreAddonPackage(name: string, backup: Option<nat>)
      requires backup.Some? ==> backup.value in rollbacks
      modifies this`packages, this`rollbacks
      ensures backup.None? ==> packages == old(packages) && rollbacks == old(rollbacks)
      ensures backup.Some? ==> packages == old(packages)[name := old(rollbacks)[backup.value]]
                               && rollbacks == old(rollbacks) - {backup.value}
    {
      if backup.None? {
        return;
      }
      packages := packages - {name};
      packages := packages[name := rollbacks[backup.value]];
      rollbacks := rollbacks - {backup.value};
    }

    /** An install or upgrade by name. It succeeds exactly when the gate lets it pass, npm succeeds and the package
        validates. A failure leaves the registry as it was and, for an addon that was registered and on disk, exactly
        its previous package; no rollback copy is left behind either way. */
    method InstallAddon(req: Request) returns (r: Result)
      requires UniqueNames(registry)
      modifies this
      ensures UniqueNames(registry) && rollbacks == old(rollbacks)
      ensures r.Installed? <==> !Refused(old(registry), req) && req.npm.ok && req.validation.ok
      ensures r.Installed? ==>
                && r.version == req.validation.version
                && registry == Upsert(old(registry), Entry(req.name, r.version, req.enable, req.source))
                && packages == req.npm.packages
      ensures r.Failed? ==> registry == old(registry)
      ensures r.Failed? && IndexOf(registry, req.name).Some? && req.name in old(packages) ==>
                req.name in packages && packages[req.name] == old(packages)[req.name]
      ensures Refused(old(registry), req) ==> packages == old(packages)
      ensures r.Failed? && !Refused(old(registry), req) ==>
                packages == if IndexOf(old(registry), req.name).Some? && req.name in old(packages)
                            then req.npm.packages[req.name := old(packages)[req.name]]
                            else if req.npm.ok then req.uninstalled else req.npm.packages
    {
      hide UniqueNames, Upsert, IndexOf, CompareSemver;
      IndexOfIsFirst(registry, req.name);
      var installed := IndexOf(registry, req.name);
      var backup: Option<nat> := None;
      if installed.Some? {
        if req.target.Some? && CompareSemver(req.target.value, registry[installed.value].version) < 0 {
          return Failed;
        }
        backup := BackupAddonPackage(req.name);
      }
      packages := req.npm.packages;
      if !req.npm.ok {
        RestoreAddonPackage(req.name, backup);
        assert rollbacks == old(rollbacks);
        return Failed;
      }
      if !req.validation.ok {
        RestoreAddonPackage(req.name, backup);
        assert rollbacks == old(rollbacks);
        if backup.None? {
          packages := req.uninstalled;
        }
        return Failed;
      }
      if backup.Some? {
        rollbacks := rollbacks - {backup.value};
      }
      assert rollbacks == old(rollbacks);
      var entry := Entry(req.name, req.validation.version, req.enable, req.source);
      UpsertInPlace(registry, entry);
      UpsertEntry(entry);
      return Installed(req.validation.version);
    }

    /** Re-installs one registered addon. A failing npm run or validation puts its previous package back. */
    method UpdateOne(entry: Entry, npm: Npm, validation: Validation) returns (outcome: Update)
      requires UniqueNames(registry) && entry in registry
      modifies this
      ensures rollbacks == old(rollbacks)
      ensures outcome == if !npm.ok then Threw else if !validation.ok then Kept else Updated(validation.version)
      ensures outcome.Updated? ==> packages == npm.packages && registry == Upsert(old(registry), entry.(version := outcome.to))
      ensures !outcome.Updated? ==> registry == old(registry)
      ensures !outcome.Updated? && entry.name in old(packages) ==>
                packages == npm.packages[entry.name := old(packages)[entry.name]]
    {
      var backup := BackupAddonPackage(entry.name);
      packages := npm.packages;
      if !npm.ok || !validation.ok {
        RestoreAddonPackage(entry.name, backup);
        assert rollbacks == old(rollbacks);
        return if npm.ok then Kept else Threw;
      }
      if backup.Some? {
        rollbacks := rollbacks - {backup.value};
      }
      assert rollbacks == old(rollbacks);
      UpsertEntry(entry.(version := validation.version));
      return Updated(validation.version);
    }

    /** Updates one addon, or all of them in registry order; `runs` says how npm and validation go for each target.
        Whether it returns or throws half-way, no entry is added, removed or moved and only versions change: of the
        targets before the one that threw, exactly those that validated, each to its validated version. */
    method UpdateAddon(name: Option<string>, latest: bool, runs: seq<(Npm, Validation)>) returns (threw: bool, ghost reached: nat)
      requires UniqueNames(registry) && |runs| >= |registry|
      modifies this
      ensures UniqueNames(registry) && rollbacks == old(rollbacks)
      ensures reached <= |Targets(old(registry), name)| <= |runs| && |registry| == |old(registry)|
      ensures !threw ==> reached == |Targets(old(registry), name)|
      ensures forall i | 0 <= i < |registry| ::
                registry[i] == AfterUpdate(old(registry)[i], Targets(old(registry), name), runs, reached)
      ensures threw && reached < |Targets(old(registry), name)| ==>
                (latest && Targets(old(registry), name)[reached].source == Local) || !runs[reached].0.ok
      ensures forall k | 0 <= k < reached ::
                runs[k].0.ok && !(latest && Targets(old(registry), name)[k].source == Local)
      ensures threw && reached == |Targets(old(registry), name)| ==> name.Some? && name.value != "" && IndexOf(old(registry), name.value).None?
      ensures name.Some? && name.value != "" && IndexOf(old(registry), name.value).None? ==> threw
      ensures !threw ==> forall i | 0 <= i < |registry| :: registry[i] == Finally(old(registry), name, runs, i)
    {
      hide Targets, AfterUpdate, Finally, UniqueNames;
      var targets := Targets(registry, name);
      TargetsAreEntries(registry, name);
      AllTried(registry, name, runs);
      if Named(name) && |targets| == 0 {
        NoneTried(registry, targets, runs);
        NoTarget(registry, name);
        return true, 0;
      }
      threw, reached := UpdateTargets(targets, latest, runs);
    }

    /** The targets in turn, up to the first that throws. */
    method UpdateTargets(targets: seq<Entry>, latest: bool, runs: seq<(Npm, Validation)>) returns (threw: bool, ghost reached: nat)
      requires UniqueNames(registry) && UniqueNames(targets) && |runs| >= |registry| && |runs| >= |targets|
      requires forall e | e in targets :: e in registry
      modifies this
      ensures UniqueNames(registry) && rollbacks == old(rollbacks)
      ensures reached <= |targets| && |registry| == |old(registry)| && (threw <==> reached < |targets|)
      ensures forall i | 0 <= i < |registry| :: registry[i] == AfterUpdate(old(registry)[i], targets, runs, reached)
      ensures threw ==> (latest && targets[reached].source == Local) || !runs[reached].0.ok
      ensures forall k | 0 <= k < reached :: runs[k].0.ok && !(latest && targets[k].source == Local)
    {
      hide AfterUpdate, UniqueNames;
      ghost var start := registry;
      NoneTried(start, targets, runs);
      threw, reached := false, 0;
      for k := 0 to |targets|
        invariant reached == k && rollbacks == old(rollbacks)
        invariant Progress(start, registry, targets, runs, k)
        invariant forall j | 0 <= j < k :: runs[j].0.ok && !(latest && targets[j].source == Local)
      {
        var entry := targets[k];
        if latest && entry.source != Registry {
          return true, k;
        }
        UpdateStep(start, registry, targets, runs, k);
        var outcome := UpdateOne(entry, runs[k].0, runs[k].1);
        if outcome.Threw? {
          return true, k;
        }
        reached := k + 1;
      }
    }

    /** Over any run of installs no entry moves, and no version goes down of an addon whose own requests resolve, install
        what they resolve to, and are well-formed - whatever the requests for other addons are. */
    method Run(requests: seq<Request>)
      requires UniqueNames(registry)
      modifies this
      ensures UniqueNames(registry) && |old(registry)| <= |registry|
      ensures forall i | 0 <= i < |old(registry)| :: registry[i].name == old(registry)[i].name
      ensures forall i | 0 <= i < |old(registry)| && Trusted(old(registry)[i], requests) ::
                CompareSemver(old(registry)[i].version, registry[i].version) <= 0
    {
      ghost var start := registry;
      NoneLowerAtStart(start, requests);
      for k := 0 to |requests|
        invariant UniqueNames(registry)
        invariant NoneLower(start, registry, requests)
      {
        ghost var before := registry;
        var req := requests[k];
        var r := InstallAddon(req);
        if r.Installed? {
          GateKeepsNoneLower(start, before, requests, k, Entry(req.name, r.version, req.enable, req.source));
        }
      }
    }

    /** Without well-formed versions the gate gives no such guarantee: from any registered version, by way of one that
        does not parse, two accepted installs reach any version whatever, lower ones included. */
    method DowngradeThroughJunk(name: string, junk: string, low: string, files: Package)
      requires UniqueNames(registry) && IndexOf(registry, name).Some? && Parse(junk).None?
      modifies this
      ensures IndexOf(old(registry), name) == IndexOf(registry, name)
      ensures IndexOf(registry, name).value < |registry| && registry[IndexOf(registry, name).value].version == low
    {
      var first := Request(name, Local, true, Some(junk), Npm(true, map[name := files]), Validation(true, junk), map[]);
      var second := first.(target := Some(low), validation := Validation(true, low));
      ghost var at := IndexOf(registry, name).value;
      IndexOfIsFirst(registry, name);
      UpsertInPlace(registry, Entry(name, junk, true, Local));
      var _ := InstallAddon(first);
      IndexIsUnique(registry, at);
      UpsertInPlace(registry, Entry(name, low, true, Local));
      var _ := InstallAddon(second);
      IndexIsUnique(registry, at);
    }
  }

  ghost predicate NotLower(was: Entry, now: Entry) {
    now.name == was.name && Parse(was.version).Some? && CompareSemver(was.version, now.version) <= 0
  }

  // ----- Updates -----

  datatype Update = Updated(to: string) | Kept | Threw

  /** An addon is named; the empty name counts as none. */
  predicate Named(name: Option<string>) {
    name.Some? && name.value != ""
  }

  /** The entry with the given name, or all entries. */
  function Targets(reg: seq<Entry>, name: Option<string>): seq<Entry> {
    if !Named(name) then reg
    else if reg == [] then []
    else if reg[0].name == name.value then [reg[0]] + Targets(reg[1..], name)
    else Targets(reg[1..], name)
  }

  /** An entry once the first `k` targets have been through their update. */
  ghost function AfterUpdate(e: Entry, targets: seq<Entry>, runs: seq<(Npm, Validation)>, k: nat): Entry
    requires k <= |targets| && k <= |runs|
  {
    if k == 0 then e
    else if targets[k - 1].name == e.name && runs[k - 1].0.ok && runs[k - 1].1.ok then e.(version := runs[k - 1].1.version)
    else AfterUpdate(e, targets, runs, k - 1)
  }

  lemma {:induction false} TargetsAreEntries(reg: seq<Entry>, name: Option<string>)
    ensures forall e :: e in Targets(reg, name) <==> e in reg && (Named(name) ==> e.name == name.value)
    ensures UniqueNames(reg) ==> UniqueNames(Targets(reg, name))
    ensures |Targets(reg, name)| <= |reg|
    ensures Named(name) && IndexOf(reg, name.value).None? ==> |Targets(reg, name)| == 0
  {
    if Named(name) && reg != [] {
      TargetsAreEntries(reg[1..], name);
      var rest := Targets(reg[1..], name);
      if UniqueNames(reg) {
        forall j | 0 <= j < |rest|
          ensures rest[j].name != reg[0].name
        {
          assert rest[j] in rest;
          var m :| 0 <= m < |reg| - 1 && reg[1..][m] == rest[j];
          assert reg[m + 1] == rest[j];
        }
      }
    }
  }

  lemma NoTarget(reg: seq<Entry>, name: Option<string>)
    requires Named(name)
    ensures Targets(reg, name) == [] <==> IndexOf(reg, name.value).None?
  {
    hide Targets, IndexOf;
    TargetsAreEntries(reg, name);
    IndexOfIsFirst(reg, name.value);
    if IndexOf(reg, name.value).Some? {
      assert reg[IndexOf(reg, name.value).value] in Targets(reg, name);
    }
  }

  lemma {:induction false} UntouchedBefore(e: Entry, targets: seq<Entry>, runs: seq<(Npm, Validation)>, k: nat)
    requires k <= |targets| && k <= |runs| && forall m | 0 <= m < k :: targets[m].name != e.name
    ensures AfterUpdate(e, targets, runs, k) == e
  {
    if k > 0 {
      UntouchedBefore(e, targets, runs, k - 1);
    }
  }

  /** An entry after its own update: the version that was validated, or as it was. */
  ghost function Tried(e: Entry, run: (Npm, Validation)): Entry {
    if run.0.ok && run.1.ok then e.(version := run.1.version) else e
  }

  lemma {:induction false} TriedOnce(targets: seq<Entry>, runs: seq<(Npm, Validation)>, i: nat, k: nat)
    requires UniqueNames(targets) && i < |targets| && k <= |targets| <= |runs|
    ensures AfterUpdate(targets[i], targets, runs, k) == if i < k then Tried(targets[i], runs[i]) else targets[i]
  {
    if k > 0 {
      TriedOnce(targets, runs, i, k - 1);
      if i == k - 1 {
        UntouchedBefore(targets[i], targets, runs, k - 1);
      }
    }
  }

  /** Without a name every entry is tried with its own run; with one, the entry of that name and no other. */
  ghost function Finally(reg: seq<Entry>, name: Option<string>, runs: seq<(Npm, Validation)>, i: nat): Entry
    requires i < |reg| <= |runs|
  {
    if name == None || name == Some("") then Tried(reg[i], runs[i])
    else if reg[i].name == name.value then Tried(reg[i], runs[0])
    else reg[i]
  }

  lemma AllTried(reg: seq<Entry>, name: Option<string>, runs: seq<(Npm, Validation)>)
    requires UniqueNames(reg) && |Targets(reg, name)| <= |runs| && |reg| <= |runs|
    ensures var targets := Targets(reg, name);
            forall i | 0 <= i < |reg| ::
              AfterUpdate(reg[i], targets, runs, |targets|) == Finally(reg, name, runs, i)
  {
    hide AfterUpdate, Tried;
    var targets := Targets(reg, name);
    TargetsAreEntries(reg, name);
    forall i | 0 <= i < |reg|
      ensures AfterUpdate(reg[i], targets, runs, |targets|) == Finally(reg, name, runs, i)
    {
      if reg[i] in targets {
        var j :| 0 <= j < |targets| && targets[j] == reg[i];
        TriedOnce(targets, runs, j, |targets|);
        if Named(name) {
          OnlyTarget(targets, name.value, j);
        }
      } else {
        forall m | 0 <= m < |targets| ensures targets[m].name != reg[i].name {
          assert targets[m] in targets;
        }
        UntouchedBefore(reg[i], targets, runs, |targets|);
      }
    }
  }

  lemma OnlyTarget(targets: seq<Entry>, name: string, j: nat)
    requires UniqueNames(targets) && j < |targets| && forall e | e in targets :: e.name == name
    ensures j == 0
  {
    assert targets[0] in targets && targets[j] in targets;
  }

  lemma StillRegistered(start: seq<Entry>, reg: seq<Entry>, targets: seq<Entry>, runs: seq<(Npm, Validation)>, k: nat)
    requires UniqueNames(start) && UniqueNames(targets) && k < |targets| <= |runs| && |reg| == |start|
    requires forall e | e in targets :: e in start
    requires forall i | 0 <= i < |start| :: reg[i] == AfterUpdate(start[i], targets, runs, k)
    ensures targets[k] in reg
  {
    assert targets[k] in start;
    var i :| 0 <= i < |start| && start[i] == targets[k];
    UntouchedBefore(start[i], targets, runs, k);
    assert reg[i] == targets[k];
  }

  lemma {:induction false} AfterUpdateKeepsName(e: Entry, targets: seq<Entry>, runs: seq<(Npm, Validation)>, k: nat)
    requires k <= |targets| && k <= |runs|
    ensures AfterUpdate(e, targets, runs, k) == e.(version := AfterUpdate(e, targets, runs, k).version)
  {
    if k > 0 {
      AfterUpdateKeepsName(e, targets, runs, k - 1);
    }
  }

  /** The registry once the first `k` targets are through. */
  ghost predicate Progress(start: seq<Entry>, reg: seq<Entry>, targets: seq<Entry>, runs: seq<(Npm, Validation)>, k: nat)
    requires k <= |targets| && k <= |runs|
  {
    && UniqueNames(reg) && |reg| == |start|
    && forall i | 0 <= i < |start| :: reg[i] == AfterUpdate(start[i], targets, runs, k)
  }

  lemma NoneTried(start: seq<Entry>, targets: seq<Entry>, runs: seq<(Npm, Validation)>)
    requires UniqueNames(start) && |targets| <= |runs| && |start| <= |runs|
    requires UniqueNames(targets) && (forall e | e in targets :: e in start)
    ensures Progress(start, start, targets, runs, 0)
    ensures forall i | 0 <= i < |start| :: AfterUpdate(start[i], targets, runs, 0) == start[i]
  {
  }

  lemma UpdateStep(start: seq<Entry>, reg: seq<Entry>, targets: seq<Entry>, runs: seq<(Npm, Validation)>, k: nat)
    requires UniqueNames(start) && UniqueNames(targets) && k < |targets| <= |runs|
    requires forall e | e in targets :: e in start
    requires Progress(start, reg, targets, runs, k)
    ensures targets[k] in reg
    ensures Progress(start, if runs[k].0.ok && runs[k].1.ok then Upsert(reg, targets[k].(version := runs[k].1.version)) else reg,
                     targets, runs, k + 1)
  {
    var e := targets[k].(version := runs[k].1.version);
    UpsertInPlace(reg, e);
    StillRegistered(start, reg, targets, runs, k);
    IndexOfIsFirst(reg, e.name);
    forall i | 0 <= i < |start| && start[i].name == targets[k].name
      ensures start[i] == targets[k]
    {
      assert targets[k] in start;
    }
    forall i | 0 <= i < |start|
      ensures reg[i].name == start[i].name
    {
      AfterUpdateKeepsName(start[i], targets, runs, k);
    }
  }

  /** The version the gate saw is the one installed, and is a version. */
  predicate WellTargeted(req: Request) {
    req.target == Some(req.validation.version) && Parse(req.validation.version).Some?
  }

  ghost predicate Trusted(e: Entry, requests: seq<Request>) {
    Parse(e.version).Some? && forall k | 0 <= k < |requests| && requests[k].name == e.name :: WellTargeted(requests[k])
  }

  ghost predicate NoneLower(start: seq<Entry>, reg: seq<Entry>, requests: seq<Request>) {
    && |start| <= |reg|
    && forall i | 0 <= i < |start| ::
         reg[i].name == start[i].name &&
         (Trusted(start[i], requests) ==> NotLower(start[i], reg[i]) && Parse(reg[i].version).Some?)
  }

  lemma {:induction false} NoneLowerAtStart(reg: seq<Entry>, requests: seq<Request>)
    ensures NoneLower(reg, reg, requests)
  {
    hide CompareSemver, Parse;
    forall i | 0 <= i < |reg| && Trusted(reg[i], requests)
      ensures NotLower(reg[i], reg[i])
    {
      CompareIsPrecedence(reg[i].version, reg[i].version);
    }
  }

  lemma {:induction false} GateKeepsNoneLower(start: seq<Entry>, reg: seq<Entry>, requests: seq<Request>, k: nat, e: Entry)
    requires k < |requests| && !Refused(reg, requests[k])
    requires UniqueNames(reg) && NoneLower(start, reg, requests)
    requires e.name == requests[k].name && e.version == requests[k].validation.version
    ensures NoneLower(start, Upsert(reg, e), requests)
  {
    hide CompareSemver, Parse, IndexOf, Upsert;
    UpsertInPlace(reg, e);
    forall i | 0 <= i < |start| && Trusted(start[i], requests)
      ensures NotLower(start[i], Upsert(reg, e)[i]) && Parse(Upsert(reg, e)[i].version).Some?
    {
      if reg[i].name == e.name {
        assert WellTargeted(requests[k]);
        IndexIsUnique(reg, i);
        CompareIsPrecedence(e.version, reg[i].version);
        CompareIsTransitive(start[i].version, reg[i].version, e.version);
      }
    }
  }

  lemma IndexIsUnique(reg: seq<Entry>, i: nat)
    requires UniqueNames(reg) && i < |reg|
    ensures IndexOf(reg, reg[i].name) == Some(i)
  {
    hide IndexOf;
    IndexOfIsFirst(reg, reg[i].name);
    var j := IndexOf(reg, reg[i].name);
    assert j.Some? && reg[j.value].name == reg[i].name;
  }
}
