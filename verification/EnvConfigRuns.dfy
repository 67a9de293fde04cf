/**
 What holds over whole runs: any number of boots with any environments, and any edits of the file
 in between. A boot is any step that `EnvConfig.BootStep` allows, as the session's boots are.
 */
module EnvConfigRuns {
  import opened Wrappers
  import opened ConfigTree
  import opened EnvConfig

  // ----- ownership

  /** What the tracking state says of an owned path: its source's snapshot and hash agree on a leaf there. */
  predicate Traced(t: Tracking, path: Path) {
    path in t.sources && t.sources[path] != User ==>
      && t.sources[path] in t.snapshots
      && var s := t.snapshots[t.sources[path]];
         Get(s.config, path).Some? && Get(s.config, path).value.Leaf? && Get(s.hash, path) == Get(s.config, path)
  }

  /** The file still has what the source's environment put there. */
  predicate Current(w: World, path: Path) {
    path in w.tracking.sources && w.tracking.sources[path] != User && w.tracking.sources[path] in w.tracking.snapshots ==>
      Get(w.file, path) == Get(w.tracking.snapshots[w.tracking.sources[path]].config, path)
  }

  ghost predicate AllTraced(universe: set<Path>, t: Tracking) {
    forall path {:trigger Traced(t, path)} :: path in universe ==> Traced(t, path)
  }

  /** The state between boots, as long as the file is not edited. */
  ghost predicate Settled(universe: set<Path>, w: World) {
    && WellFormed(universe, w) && AllTraced(universe, w.tracking)
    && forall path {:trigger Current(w, path)} :: path in universe ==> Current(w, path)
  }

  /** A settled world has no drift, and the other way round. */
  lemma NoDriftExactly(universe: set<Path>, w: World)
    requires WellFormed(universe, w) && AllTraced(universe, w.tracking)
    ensures Settled(universe, w) <==> forall path :: !HasDrifted(w, path)
  {
    if forall path :: !HasDrifted(w, path) {
      forall path | path in universe
        ensures Current(w, path)
      {
        assert !HasDrifted(w, path);
      }
    }
    if Settled(universe, w) {
      forall path
        ensures !HasDrifted(w, path)
      {
        if path in w.tracking.sources { assert path in universe && Current(w, path); }
      }
    }
  }

  /** Marking drift leaves every remaining owner with its value in the file. */
  lemma DriftMarked(universe: set<Path>, w: World, isInstall: bool)
    requires WellFormed(universe, w) && AllTraced(universe, w.tracking)
    ensures WellFormed(universe, Drifted(w, isInstall)) && AllTraced(universe, Drifted(w, isInstall).tracking)
    ensures !isInstall ==> Settled(universe, Drifted(w, isInstall))
  {
    var w1 := Drifted(w, isInstall);
    forall path | path in universe
      ensures Traced(w1.tracking, path)
      ensures !isInstall ==> Current(w1, path)
    {
      assert Traced(w.tracking, path);
    }
  }

  /** The snapshot reads, at an owned path, what the file holds. */
  lemma SnapshotReads(universe: set<Path>, me: Source, config: Node, isInstall: bool, w: World, w': World, path: Path)
    requires LayerStep(universe, me, Config(config), isInstall, w, w')
    requires path in universe && At(w', path).source == Some(me) && At(w', path).value.Some?
    ensures me in w'.tracking.snapshots && Get(w'.tracking.snapshots[me].config, path) == At(w', path).value
    ensures w'.tracking.snapshots[me].hash == config
  {
    var owned := Owned(w', me);
    assert path in owned;
    assert PrefixFree(owned.Keys);
    HoldsGet(w'.tracking.snapshots[me].config, owned, path);
  }

  /** A parsed environment owns only its own leaves, with its values in the file; HARPER_SET_CONFIG owns all of them. */
  lemma OwnsItsLeaves(universe: set<Path>, me: Source, config: Node, isInstall: bool, w: World, w': World, path: Path)
    requires LayerStep(universe, me, Config(config), isInstall, w, w') && me != User
    requires path in universe && Traced(w.tracking, path)
    ensures At(w', path).source == Some(me) ==> path in Leaves(config) && At(w', path).value == Get(config, path)
    ensures me == SetEnv && path in Leaves(config) ==> At(w', path).source == Some(me)
    ensures path in Leaves(config) ==> Get(config, path).Some? && Get(config, path).value.Leaf?
  {
    assert At(w', path) == Layered(w, path, me, Config(config), isInstall);
    LeavesExactly(config, path);
    if At(w, path).source == Some(me) && path !in Leaves(config) {
      LeavesExactly(w.tracking.snapshots[me].config, path);
    }
  }

  /** A path that ends up with another environment's source has not been touched. */
  lemma OtherSourceUntouched(universe: set<Path>, me: Source, env: EnvVar, isInstall: bool, w: World, w': World, path: Path)
    requires LayerStep(universe, me, env, isInstall, w, w') && path in universe
    requires At(w', path).source.Some? && At(w', path).source != Some(me)
    ensures At(w', path) == At(w, path)
  {
    assert At(w', path) == Layered(w, path, me, env, isInstall);
  }

  /** After one variable has been processed, the ownership facts hold for it, and still hold for the other. */
  lemma LayerSettles(universe: set<Path>, me: Source, env: EnvVar, isInstall: bool, w: World, w': World, path: Path)
    requires LayerStep(universe, me, env, isInstall, w, w') && me != User && path in universe
    requires AllTraced(universe, w.tracking)
    ensures Traced(w'.tracking, path)
    ensures env.Config? || env.Unset? ==> At(w', path).source == Some(me) ==> Current(w', path)
    ensures Current(w, path) ==> Current(w', path)
  {
    assert Traced(w.tracking, path);
    assert At(w', path) == Layered(w, path, me, env, isInstall);
    if At(w', path).source == Some(me) {
      if env.Config? {
        OwnsItsLeaves(universe, me, env.config, isInstall, w, w', path);
        SnapshotReads(universe, me, env.config, isInstall, w, w', path);
      }
    } else if At(w', path).source.Some? {
      OtherSourceUntouched(universe, me, env, isInstall, w, w', path);
    }
  }

  /** Neither variable makes the boot fail. */
  predicate Parses(boot: Boot) {
    !boot.defaultEnv.Malformed? && !boot.setEnv.Malformed?
  }

  /** Drift that an installation does not look for, in a path whose own variable is only white space. */
  predicate StaysDrifted(w: World, boot: Boot, path: Path) {
    && boot.isInstall && HasDrifted(w, path)
    && (At(w, path).source == Some(DefaultEnv) ==> boot.defaultEnv.Blank? && path !in EnvLeaves(boot.setEnv))
    && (At(w, path).source == Some(SetEnv) ==> boot.setEnv.Blank?)
  }

  lemma BootTraced(universe: set<Path>, w: World, boot: Boot, mid: World, w': World)
    requires WellFormed(universe, w) && AllTraced(universe, w.tracking)
    requires BootThrough(universe, w, boot, mid, w')
    ensures WellFormed(universe, mid) && AllTraced(universe, mid.tracking)
    ensures WellFormed(universe, w') && AllTraced(universe, w'.tracking)
  {
    DriftMarked(universe, w, boot.isInstall);
    forall path | path in universe
      ensures Traced(mid.tracking, path)
    {
      LayerSettles(universe, DefaultEnv, boot.defaultEnv, boot.isInstall, Drifted(w, boot.isInstall), mid, path);
    }
    forall path | path in universe
      ensures Traced(w'.tracking, path)
    {
      LayerSettles(universe, SetEnv, boot.setEnv, boot.isInstall, mid, w', path);
    }
  }

  /** A turn leaves drift where it found it, except in what its own variable puts right. */
  lemma LayerDrift(universe: set<Path>, me: Source, env: EnvVar, isInstall: bool, w: World, w': World, path: Path)
    requires LayerStep(universe, me, env, isInstall, w, w') && me != User && path in universe && !env.Malformed?
    requires AllTraced(universe, w.tracking)
    ensures Current(w', path) <==>
      !(At(w', path).source.Some? && At(w', path) == At(w, path) && !Current(w, path) && (At(w, path).source == Some(me) ==> env.Blank?))
  {
    LayerSettles(universe, me, env, isInstall, w, w', path);
    if At(w', path).source.Some? && At(w', path).source != Some(me) {
      OtherSourceUntouched(universe, me, env, isInstall, w, w', path);
    }
  }

  /** What a boot through `mid` does at one path. */
  predicate PathBoot(w: World, boot: Boot, mid: World, w': World, path: Path) {
    && At(mid, path) == Layered(Drifted(w, boot.isInstall), path, DefaultEnv, boot.defaultEnv, boot.isInstall)
    && At(w', path) == Layered(mid, path, SetEnv, boot.setEnv, boot.isInstall)
    && Lookup(mid.tracking.snapshots, SetEnv) == Lookup(w.tracking.snapshots, SetEnv)
  }

  lemma DriftAfterTurns(universe: set<Path>, w1: World, boot: Boot, mid: World, w': World, path: Path)
    requires AllTraced(universe, w1.tracking) && AllTraced(universe, mid.tracking) && path in universe && Parses(boot)
    requires LayerStep(universe, DefaultEnv, boot.defaultEnv, boot.isInstall, w1, mid)
    requires LayerStep(universe, SetEnv, boot.setEnv, boot.isInstall, mid, w')
    ensures Current(w1, path) ==> Current(w', path)
    ensures !Current(w', path) <==>
      && !Current(w1, path) && At(mid, path) == At(w1, path) && At(w', path) == At(mid, path)
      && (At(w1, path).source == Some(DefaultEnv) ==> boot.defaultEnv.Blank?)
      && (At(w1, path).source == Some(SetEnv) ==> boot.setEnv.Blank?)
  {
    LayerDrift(universe, DefaultEnv, boot.defaultEnv, boot.isInstall, w1, mid, path);
    LayerDrift(universe, SetEnv, boot.setEnv, boot.isInstall, mid, w', path);
  }

  lemma PathThroughMid(universe: set<Path>, w: World, boot: Boot, mid: World, w': World, path: Path)
    requires BootThrough(universe, w, boot, mid, w') && path in universe
    ensures PathBoot(w, boot, mid, w', path)
  {
  }

  lemma OverlookedDrift(w: World, boot: Boot, mid: World, w': World, path: Path)
    requires PathBoot(w, boot, mid, w', path) && boot.isInstall && Parses(boot)
    requires At(w, path).source == Some(DefaultEnv) || At(w, path).source == Some(SetEnv)
    ensures At(mid, path) == At(w, path) && (At(w, path).source == Some(DefaultEnv) ==> boot.defaultEnv.Blank?)
            && At(w', path) == At(mid, path) && (At(w, path).source == Some(SetEnv) ==> boot.setEnv.Blank?)
       <==> (At(w, path).source == Some(DefaultEnv) ==> boot.defaultEnv.Blank? && path !in EnvLeaves(boot.setEnv))
            && (At(w, path).source == Some(SetEnv) ==> boot.setEnv.Blank?)
  {
  }

  /** After a boot exactly the drift that an installation overlooked is left. */
  lemma DriftAfterBoot(universe: set<Path>, w: World, boot: Boot, mid: World, w': World, path: Path)
    requires WellFormed(universe, w) && AllTraced(universe, w.tracking) && Parses(boot)
    requires BootThrough(universe, w, boot, mid, w')
    ensures HasDrifted(w', path) <==> StaysDrifted(w, boot, path)
    ensures HasDrifted(w', path) ==> At(w', path) == At(w, path)
  {
    BootTraced(universe, w, boot, mid, w');
    if path in universe {
      DriftMarked(universe, w, boot.isInstall);
      var w1 := Drifted(w, boot.isInstall);
      assert AllTraced(universe, w1.tracking) && (!boot.isInstall ==> Current(w1, path));
      DriftAfterTurns(universe, w1, boot, mid, w', path);
      if boot.isInstall && !Current(w, path) {
        PathThroughMid(universe, w, boot, mid, w', path);
        OverlookedDrift(w, boot, mid, w', path);
      }
    } else {
      assert path !in w.tracking.sources && path !in w'.tracking.sources;
    }
  }

  /** What the owner of a path must be after a boot. */
  predicate OwnsAt(boot: Boot, state: PathState, path: Path) {
    && (boot.setEnv.Config? ==> (state.source == Some(SetEnv) <==> path in Leaves(boot.setEnv.config)))
    && (boot.setEnv.Config? && state.source == Some(SetEnv) ==> state.value == Get(boot.setEnv.config, path))
    && (boot.setEnv.Unset? ==> state.source != Some(SetEnv))
    && (boot.defaultEnv.Config? && state.source == Some(DefaultEnv) ==>
          path in Leaves(boot.defaultEnv.config) && state.value == Get(boot.defaultEnv.config, path))
    && (boot.defaultEnv.Unset? ==> state.source != Some(DefaultEnv))
  }

  ghost predicate Owns(universe: set<Path>, boot: Boot, w: World) {
    forall path {:trigger OwnsAt(boot, At(w, path), path)} :: path in universe ==> OwnsAt(boot, At(w, path), path)
  }

  lemma SetOwns(universe: set<Path>, boot: Boot, mid: World, w': World, path: Path)
    requires LayerStep(universe, SetEnv, boot.setEnv, boot.isInstall, mid, w') && path in universe
    requires Traced(mid.tracking, path)
    ensures boot.setEnv.Config? ==> (At(w', path).source == Some(SetEnv) <==> path in Leaves(boot.setEnv.config))
    ensures boot.setEnv.Config? && At(w', path).source == Some(SetEnv) ==> At(w', path).value == Get(boot.setEnv.config, path)
    ensures boot.setEnv.Unset? ==> At(w', path).source != Some(SetEnv)
  {
    assert At(w', path) == Layered(mid, path, SetEnv, boot.setEnv, boot.isInstall);
    if boot.setEnv.Config? {
      OwnsItsLeaves(universe, SetEnv, boot.setEnv.config, boot.isInstall, mid, w', path);
    }
  }

  lemma DefaultOwns(universe: set<Path>, boot: Boot, w1: World, mid: World, path: Path)
    requires LayerStep(universe, DefaultEnv, boot.defaultEnv, boot.isInstall, w1, mid) && path in universe
    requires Traced(w1.tracking, path) && At(mid, path).source == Some(DefaultEnv)
    ensures boot.defaultEnv.Config? ==> path in Leaves(boot.defaultEnv.config) && At(mid, path).value == Get(boot.defaultEnv.config, path)
    ensures !boot.defaultEnv.Unset?
  {
    assert At(mid, path) == Layered(w1, path, DefaultEnv, boot.defaultEnv, boot.isInstall);
    if boot.defaultEnv.Config? {
      OwnsItsLeaves(universe, DefaultEnv, boot.defaultEnv.config, boot.isInstall, w1, mid, path);
    }
  }

  lemma BootOwns(universe: set<Path>, w: World, boot: Boot, mid: World, w': World, path: Path)
    requires BootThrough(universe, w, boot, mid, w') && path in universe
    requires Traced(Drifted(w, boot.isInstall).tracking, path) && Traced(mid.tracking, path)
    ensures OwnsAt(boot, At(w', path), path)
  {
    SetOwns(universe, boot, mid, w', path);
    if At(w', path).source == Some(DefaultEnv) {
      OtherSourceUntouched(universe, SetEnv, boot.setEnv, boot.isInstall, mid, w', path);
      DefaultOwns(universe, boot, Drifted(w, boot.isInstall), mid, path);
    }
  }

  /**
   One boot, from any edited file: who owns what is as it should be, and the only drift left is what an installation
   overlooked.
   */
  lemma OwnershipAfterBoot(universe: set<Path>, w: World, boot: Boot, w': World)
    requires WellFormed(universe, w) && AllTraced(universe, w.tracking) && Parses(boot)
    requires BootStep(universe, w, boot, w')
    ensures WellFormed(universe, w') && AllTraced(universe, w'.tracking) && Owns(universe, boot, w')
    ensures forall path :: HasDrifted(w', path) <==> StaysDrifted(w, boot, path)
  {
    var mid :| BootThrough(universe, w, boot, mid, w');
    BootTraced(universe, w, boot, mid, w');
    DriftMarked(universe, w, boot.isInstall);
    forall path | path in universe
      ensures OwnsAt(boot, At(w', path), path)
    {
      assert Traced(mid.tracking, path) && Traced(Drifted(w, boot.isInstall).tracking, path);
      BootOwns(universe, w, boot, mid, w', path);
    }
    forall path
      ensures HasDrifted(w', path) <==> StaysDrifted(w, boot, path)
    {
      DriftAfterBoot(universe, w, boot, mid, w', path);
    }
  }

  // ----- runs

  /** The file as the boot finds it, with whatever edits there have been, and the boot. */
  datatype Visit = Visit(file: Node, boot: Boot)

  /** The boot of a visit leads from one world to the next. */
  ghost predicate Visited(universe: set<Path>, before: World, visit: Visit, after: World) {
    visit.file.Obj? && Parses(visit.boot) && BootStep(universe, World(visit.file, before.tracking), visit.boot, after)
  }

  ghost predicate VisitAt(universe: set<Path>, visits: seq<Visit>, worlds: seq<World>, i: nat)
    requires i < |visits| && |worlds| == |visits| + 1
  {
    Visited(universe, worlds[i], visits[i], worlds[i + 1])
  }

  /** `worlds[i]` is what boot number i - 1 leaves; nothing is tracked before the first. */
  ghost predicate Run(universe: set<Path>, visits: seq<Visit>, worlds: seq<World>) {
    && PrefixFree(universe) && |worlds| == |visits| + 1
    && worlds[0].tracking == UNTRACKED
    && forall i {:trigger VisitAt(universe, visits, worlds, i)} :: 0 <= i < |visits| ==> VisitAt(universe, visits, worlds, i)
  }

  /** The world that visit number `k` starts from, after the edits. */
  function Found(visits: seq<Visit>, worlds: seq<World>, k: nat): World
    requires k < |visits| && k < |worlds|
  {
    World(visits[k].file, worlds[k].tracking)
  }

  /** A world that a visit can start from, whatever is edited first. */
  ghost predicate Bootable(universe: set<Path>, t: Tracking) {
    WellFormed(universe, World(EMPTY, t)) && AllTraced(universe, t)
  }

  lemma VisitKeeps(universe: set<Path>, before: World, visit: Visit, after: World)
    requires Bootable(universe, before.tracking) && Visited(universe, before, visit, after)
    ensures WellFormed(universe, after) && Owns(universe, visit.boot, after) && Bootable(universe, after.tracking)
    ensures forall path :: HasDrifted(after, path) <==> StaysDrifted(World(visit.file, before.tracking), visit.boot, path)
  {
    OwnershipAfterBoot(universe, World(visit.file, before.tracking), visit.boot, after);
  }

  lemma FreshBootable(universe: set<Path>)
    requires PrefixFree(universe)
    ensures Bootable(universe, UNTRACKED)
  {
  }

  lemma BootableStep(universe: set<Path>, visits: seq<Visit>, worlds: seq<World>, i: nat, next: nat)
    requires Run(universe, visits, worlds) && i < |visits| && next == i + 1
    requires Bootable(universe, worlds[i].tracking)
    ensures Bootable(universe, worlds[next].tracking)
  {
    assert VisitAt(universe, visits, worlds, i);
    VisitKeeps(universe, worlds[i], visits[i], worlds[i + 1]);
  }

  lemma {:induction false} RunBootable(universe: set<Path>, visits: seq<Visit>, worlds: seq<World>, i: nat)
    requires Run(universe, visits, worlds) && i <= |visits|
    ensures Bootable(universe, worlds[i].tracking)
  {
    if i == 0 {
      FreshBootable(universe);
    } else {
      RunBootable(universe, visits, worlds, i - 1);
      BootableStep(universe, visits, worlds, i - 1, i);
    }
  }

  /**
   After every boot of any run who owns what is as it should be, and drift detection on the untouched result finds
   nothing, except drift that the boot was an installation and overlooked.
   */
  lemma OwnershipOverRuns(universe: set<Path>, visits: seq<Visit>, worlds: seq<World>, i: nat)
    requires Run(universe, visits, worlds) && i < |visits|
    ensures Owns(universe, visits[i].boot, worlds[i + 1])
    ensures var after := worlds[i + 1];
            forall path :: HasDrifted(after, path) <==> StaysDrifted(Found(visits, worlds, i), visits[i].boot, path)
  {
    RunBootable(universe, visits, worlds, i);
    assert VisitAt(universe, visits, worlds, i);
    VisitKeeps(universe, worlds[i], visits[i], worlds[i + 1]);
  }

  // ----- the file outside the environments

  /** The paths that one boot may touch: the leaves of the two environments, and what they owned before. */
  function Touchable(w: World, boot: Boot): set<Path> {
    EnvLeaves(boot.defaultEnv) + OwnedPaths(w, DefaultEnv) + EnvLeaves(boot.setEnv) + OwnedPaths(w, SetEnv)
  }

  /** A boot changes the file only there. */
  lemma FileFrame(universe: set<Path>, w: World, boot: Boot, w': World, other: Path)
    requires WellFormed(universe, w) && BootStep(universe, w, boot, w')
    requires ApartFromAll(Touchable(w, boot), other)
    ensures Get(w'.file, other) == Get(w.file, other)
  {
    var mid :| BootThrough(universe, w, boot, mid, w');
    var w1 := Drifted(w, boot.isInstall);
    assert ApartFromAll(EnvLeaves(boot.defaultEnv) + OwnedPaths(w1, DefaultEnv), other);
    forall t | t in OwnedPaths(mid, SetEnv)
      ensures t in OwnedPaths(w, SetEnv)
    {
      assert At(mid, t).source == Some(SetEnv);
      OtherSourceUntouched(universe, DefaultEnv, boot.defaultEnv, boot.isInstall, w1, mid, t);
      assert At(w1, t).source == Some(SetEnv);
    }
    assert ApartFromAll(EnvLeaves(boot.setEnv) + OwnedPaths(mid, SetEnv), other);
  }

  // ----- one path through a boot

  lemma PathThrough(universe: set<Path>, w: World, boot: Boot, w': World, path: Path) returns (mid: World)
    requires BootStep(universe, w, boot, w') && path in universe
    ensures PathBoot(w, boot, mid, w', path)
  {
    mid :| BootThrough(universe, w, boot, mid, w');
    PathThroughMid(universe, w, boot, mid, w', path);
  }

  lemma VisitPath(universe: set<Path>, visits: seq<Visit>, worlds: seq<World>, k: nat, path: Path) returns (mid: World)
    requires Run(universe, visits, worlds) && k < |visits| && path in universe
    ensures PathBoot(Found(visits, worlds, k), visits[k].boot, mid, worlds[k + 1], path)
  {
    assert VisitAt(universe, visits, worlds, k);
    mid := PathThrough(universe, Found(visits, worlds, k), visits[k].boot, worlds[k + 1], path);
  }

  lemma NoDriftAt(w: World, isInstall: bool, path: Path)
    requires At(w, path).source.None? || At(w, path).source == Some(User) || Current(w, path)
    ensures At(Drifted(w, isInstall), path) == At(w, path)
  {
  }

  /** A path marked as the user's stays so and keeps its value, whatever DEFAULT becomes, while SET does not name it. */
  lemma UserPathKept(w: World, boot: Boot, mid: World, w': World, path: Path)
    requires PathBoot(w, boot, mid, w', path)
    requires At(w, path).source == Some(User) && path !in EnvLeaves(boot.setEnv)
    ensures At(w', path) == At(w, path)
  {
    NoDriftAt(w, boot.isInstall, path);
  }

  /** Over any number of boots and edits, the value that a boot finds at a user's path is the value it leaves. */
  lemma {:induction false} UserPathOverRuns(universe: set<Path>, visits: seq<Visit>, worlds: seq<World>, path: Path, from: nat, i: nat)
    requires Run(universe, visits, worlds) && from <= i < |visits| && path in universe
    requires At(worlds[from], path).source == Some(User)
    requires forall k :: from <= k <= i ==> path !in EnvLeaves(visits[k].boot.setEnv)
    ensures Get(worlds[i + 1].file, path) == Get(visits[i].file, path) && At(worlds[i + 1], path).source == Some(User)
  {
    if i == from {
    } else {
      UserPathOverRuns(universe, visits, worlds, path, from, i - 1);
    }
    var mid := VisitPath(universe, visits, worlds, i, path);
    UserPathKept(Found(visits, worlds, i), visits[i].boot, mid, worlds[i + 1], path);
  }

  /** A path that is missing or null in the file counts as absent. */
  predicate Absent(value: Option<Node>) {
    value == None || value == Some(Leaf(Null))
  }

  /** At runtime DEFAULT takes a path that nobody owns exactly when it names it and the file has no value there. */
  lemma DefaultTakesExactly(w: World, boot: Boot, mid: World, w': World, path: Path)
    requires PathBoot(w, boot, mid, w', path) && !boot.isInstall
    requires At(w, path).source.None? && path !in EnvLeaves(boot.setEnv)
    ensures At(w', path).source == Some(DefaultEnv) <==> Absent(At(w, path).value) && path in EnvLeaves(boot.defaultEnv)
    ensures At(w', path).source != Some(DefaultEnv) ==> At(w', path).source.None? && At(w', path).value == At(w, path).value
  {
    NoDriftAt(w, boot.isInstall, path);
  }

  /**
   Over any number of runtime boots and edits, DEFAULT never overrides a value in the file that it did not put there:
   the value that each boot finds is the value it leaves, and the path stays without an owner.
   */
  lemma {:induction false} DefaultDoesNotOverride(universe: set<Path>, visits: seq<Visit>, worlds: seq<World>, path: Path, from: nat, i: nat)
    requires Run(universe, visits, worlds) && from <= i < |visits| && path in universe
    requires At(worlds[from], path).source.None?
    requires forall k :: from <= k <= i ==>
      !visits[k].boot.isInstall && path !in EnvLeaves(visits[k].boot.setEnv) && !Absent(Get(visits[k].file, path))
    ensures Get(worlds[i + 1].file, path) == Get(visits[i].file, path) && At(worlds[i + 1], path).source.None?
  {
    if i == from {
    } else {
      DefaultDoesNotOverride(universe, visits, worlds, path, from, i - 1);
    }
    var mid := VisitPath(universe, visits, worlds, i, path);
    DefaultTakesExactly(Found(visits, worlds, i), visits[i].boot, mid, worlds[i + 1], path);
  }
}
