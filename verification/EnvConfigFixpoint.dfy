/**
 Booting an unedited file again and again: after two boots under the same environments, a third
 changes neither the file nor the tracked state. One boot is not enough.
 */
module EnvConfigFixpoint {
  import opened Wrappers
  import opened ConfigTree
  import opened EnvConfig
  import opened EnvConfigRuns
  import opened EnvConfigRestores
  import opened EnvConfigSession

  /** The state remembers these very environments: nothing is outdated, nothing is left to clean up. */
  predicate Remembers(t: Tracking, me: Source, env: EnvVar) {
    && (env.Config? ==> me in t.snapshots && t.snapshots[me].hash == env.config)
    && (env.Unset? ==> me !in t.snapshots)
  }

  lemma BootRemembers(universe: set<Path>, w: World, boot: Boot, mid: World, w': World)
    requires BootThrough(universe, w, boot, mid, w')
    ensures Remembers(mid.tracking, DefaultEnv, boot.defaultEnv)
    ensures Remembers(w'.tracking, DefaultEnv, boot.defaultEnv) && Remembers(w'.tracking, SetEnv, boot.setEnv)
  {
  }

  // ----- one path

  /** DEFAULT's turn at a path when nothing is outdated. */
  function ByDefault(state: PathState, path: Path, boot: Boot): PathState {
    if path !in EnvLeaves(boot.defaultEnv) then state
    else if boot.isInstall then Overlaid(state, LeafOf(boot.defaultEnv.config, path), DefaultEnv, {SetEnv, User})
    else Defaulted(state, LeafOf(boot.defaultEnv.config, path))
  }

  function BySet(state: PathState, path: Path, boot: Boot): PathState {
    if path !in EnvLeaves(boot.setEnv) then state
    else Overlaid(state, LeafOf(boot.setEnv.config, path), SetEnv, {})
  }

  lemma ByDefaultIdempotent(state: PathState, path: Path, boot: Boot)
    ensures ByDefault(ByDefault(state, path, boot), path, boot) == ByDefault(state, path, boot)
  {
  }

  lemma SetLeafFixed(state: PathState, path: Path, boot: Boot)
    requires OwnsAt(boot, state, path) && path in EnvLeaves(boot.setEnv)
    ensures ByDefault(state, path, boot) == state && BySet(state, path, boot) == state
  {
    LeavesExactly(boot.setEnv.config, path);
  }

  /** A quiet boot takes its two turns at a path, from where drift detection leaves it. */
  lemma QuietTurns(w: World, boot: Boot, mid: World, w': World, path: Path)
    requires PathBoot(w, boot, mid, w', path)
    requires Remembers(w.tracking, DefaultEnv, boot.defaultEnv) && Remembers(w.tracking, SetEnv, boot.setEnv)
    ensures At(mid, path) == ByDefault(At(Drifted(w, boot.isInstall), path), path, boot)
    ensures At(w', path) == BySet(At(mid, path), path, boot)
  {
    assert Lookup(mid.tracking.snapshots, SetEnv) == Lookup(w.tracking.snapshots, SetEnv);
    assert Drifted(w, boot.isInstall).tracking.snapshots == w.tracking.snapshots;
  }

  /** The path that is marked as the user's in the second boot is no parsed variable's. */
  lemma OwnedAfterMarking(w: World, boot: Boot, isInstall: bool, path: Path)
    requires OwnsAt(boot, At(w, path), path)
    requires HasDrifted(w, path) ==>
      && (At(w, path).source == Some(DefaultEnv) ==> boot.defaultEnv.Blank? && path !in EnvLeaves(boot.setEnv))
      && (At(w, path).source == Some(SetEnv) ==> boot.setEnv.Blank?)
    ensures OwnsAt(boot, At(Drifted(w, isInstall), path), path)
  {
  }

  /** The second boot leaves, already after DEFAULT's turn, a state that the third does not change. */
  lemma SecondBootFixes(first: PathState, path: Path, boot: Boot)
    requires OwnsAt(boot, first, path)
    ensures var second := ByDefault(first, path, boot);
            BySet(second, path, boot) == second && ByDefault(second, path, boot) == second
  {
    ByDefaultIdempotent(first, path, boot);
    if path in EnvLeaves(boot.setEnv) {
      SetLeafFixed(first, path, boot);
    }
  }

  // ----- whole worlds

  ghost predicate SameAt(universe: set<Path>, a: World, b: World) {
    forall path {:trigger At(a, path)} {:trigger At(b, path)} :: path in universe ==> At(a, path) == At(b, path)
  }

  lemma SameLookups<V>(a: map<Path, V>, b: map<Path, V>)
    requires forall path :: Lookup(a, path) == Lookup(b, path)
    ensures a == b
  {
    forall path
      ensures path in a <==> path in b
      ensures path in a && path in b ==> a[path] == b[path]
    {
      assert Lookup(a, path) == Lookup(b, path);
    }
  }

  lemma SameTracking(universe: set<Path>, a: World, b: World)
    requires SameAt(universe, a, b)
    requires a.tracking.sources.Keys <= universe && a.tracking.originals.Keys <= universe
    requires b.tracking.sources.Keys <= universe && b.tracking.originals.Keys <= universe
    ensures a.tracking.sources == b.tracking.sources && a.tracking.originals == b.tracking.originals
  {
    forall path
      ensures Lookup(a.tracking.sources, path) == Lookup(b.tracking.sources, path)
      ensures Lookup(a.tracking.originals, path) == Lookup(b.tracking.originals, path)
    {
      if path in universe {
        assert At(a, path) == At(b, path);
      }
    }
    SameLookups(a.tracking.sources, b.tracking.sources);
    SameLookups(a.tracking.originals, b.tracking.originals);
  }

  lemma SameOwned(universe: set<Path>, me: Source, a: World, b: World)
    requires SameAt(universe, a, b)
    requires a.tracking.sources == b.tracking.sources && a.tracking.sources.Keys <= universe
    ensures Owned(a, me) == Owned(b, me)
  {
    forall path | path in a.tracking.sources
      ensures Get(a.file, path) == Get(b.file, path)
    {
      assert At(a, path) == At(b, path);
    }
  }

  /** One variable's turn that changes no path changes nothing at all, its snapshot included. */
  lemma NothingChanges(universe: set<Path>, me: Source, env: EnvVar, isInstall: bool, w: World, w': World)
    requires WellFormed(universe, w) && LayerStep(universe, me, env, isInstall, w, w')
    requires SameAt(universe, w, w') && Remembers(w.tracking, me, env)
    requires env.Config? ==> Holds(w.tracking.snapshots[me].config, Owned(w, me))
    ensures w' == w
  {
    SameTracking(universe, w, w');
    assert SameValues(universe, w, w');
    if env.Config? {
      SameOwned(universe, me, w, w');
      HoldsUnique(w'.tracking.snapshots[me].config, w.tracking.snapshots[me].config, Owned(w', me));
      assert w'.tracking.snapshots == w.tracking.snapshots;
    }
  }

  /** The first boot leaves, whatever drift the second marks, what the second's environments own. */
  lemma FirstBootOwns(universe: set<Path>, w0: World, first: Boot, w1: World, boot: Boot)
    requires WellFormed(universe, w0) && AllTraced(universe, w0.tracking) && Parses(first)
    requires first.defaultEnv == boot.defaultEnv && first.setEnv == boot.setEnv
    requires BootStep(universe, w0, first, w1)
    ensures Owns(universe, boot, Drifted(w1, boot.isInstall))
  {
    OwnershipAfterBoot(universe, w0, first, w1);
    var mid1 :| BootThrough(universe, w0, first, mid1, w1);
    forall path | path in universe
      ensures OwnsAt(boot, At(Drifted(w1, boot.isInstall), path), path)
    {
      assert OwnsAt(first, At(w1, path), path);
      DriftAfterBoot(universe, w0, first, mid1, w1, path);
      OwnedAfterMarking(w1, boot, boot.isInstall, path);
    }
  }

  lemma NothingMarked(w: World, isInstall: bool)
    requires isInstall || forall path :: !HasDrifted(w, path)
    ensures Drifted(w, isInstall) == w
  {
    assert !isInstall ==> Drifted(w, isInstall).tracking.sources == w.tracking.sources;
  }

  /** After a boot, a second under the same environments has nothing to mark. */
  lemma NothingMarkedAgain(universe: set<Path>, w0: World, boot: Boot, w1: World)
    requires WellFormed(universe, w0) && AllTraced(universe, w0.tracking) && Parses(boot)
    requires BootStep(universe, w0, boot, w1)
    ensures Drifted(w1, boot.isInstall) == w1
  {
    OwnershipAfterBoot(universe, w0, boot, w1);
    if !boot.isInstall {
      forall path
        ensures !HasDrifted(w1, path)
      {
        assert !StaysDrifted(w0, boot, path);
      }
    }
    NothingMarked(w1, boot.isInstall);
  }

  /** The second boot: from then on, every path is where both turns leave it. */
  lemma SecondBoot(universe: set<Path>, boot: Boot, w1: World, mid2: World, w2: World)
    requires Owns(universe, boot, Drifted(w1, boot.isInstall))
    requires Remembers(w1.tracking, DefaultEnv, boot.defaultEnv) && Remembers(w1.tracking, SetEnv, boot.setEnv)
    requires BootThrough(universe, w1, boot, mid2, w2)
    ensures SameAt(universe, mid2, w2)
    ensures forall path :: path in universe ==>
      ByDefault(At(w2, path), path, boot) == At(w2, path) && BySet(At(w2, path), path, boot) == At(w2, path)
  {
    forall path | path in universe
      ensures At(mid2, path) == At(w2, path)
      ensures ByDefault(At(w2, path), path, boot) == At(w2, path) && BySet(At(w2, path), path, boot) == At(w2, path)
    {
      PathThroughMid(universe, w1, boot, mid2, w2, path);
      assert OwnsAt(boot, At(Drifted(w1, boot.isInstall), path), path);
      QuietTurns(w1, boot, mid2, w2, path);
      SecondBootFixes(At(Drifted(w1, boot.isInstall), path), path, boot);
    }
  }

  lemma ThirdBoot(universe: set<Path>, boot: Boot, w2: World, mid3: World, w3: World)
    requires Drifted(w2, boot.isInstall) == w2
    requires Remembers(w2.tracking, DefaultEnv, boot.defaultEnv) && Remembers(w2.tracking, SetEnv, boot.setEnv)
    requires BootThrough(universe, w2, boot, mid3, w3)
    requires forall path :: path in universe ==>
      ByDefault(At(w2, path), path, boot) == At(w2, path) && BySet(At(w2, path), path, boot) == At(w2, path)
    ensures SameAt(universe, w2, mid3) && SameAt(universe, mid3, w3)
  {
    forall path | path in universe
      ensures At(mid3, path) == At(w2, path) && At(w3, path) == At(w2, path)
    {
      PathThroughMid(universe, w2, boot, mid3, w3, path);
      QuietTurns(w2, boot, mid3, w3, path);
    }
  }

  lemma SnapshotsKept(universe: set<Path>, w: World, boot: Boot, mid: World, w': World)
    requires BootThrough(universe, w, boot, mid, w')
    ensures boot.defaultEnv.Config? ==> Holds(w'.tracking.snapshots[DefaultEnv].config, Owned(mid, DefaultEnv))
    ensures boot.setEnv.Config? ==> Holds(w'.tracking.snapshots[SetEnv].config, Owned(w', SetEnv))
  {
  }

  lemma TwoMoreBoots(universe: set<Path>, boot: Boot, w1: World, w2: World, w3: World)
    requires WellFormed(universe, w1) && AllTraced(universe, w1.tracking) && Parses(boot)
    requires Owns(universe, boot, Drifted(w1, boot.isInstall))
    requires Remembers(w1.tracking, DefaultEnv, boot.defaultEnv) && Remembers(w1.tracking, SetEnv, boot.setEnv)
    requires BootStep(universe, w1, boot, w2) && BootStep(universe, w2, boot, w3)
    ensures w3 == w2
  {
    var mid2 :| BootThrough(universe, w1, boot, mid2, w2);
    var mid3 :| BootThrough(universe, w2, boot, mid3, w3);
    OwnershipAfterBoot(universe, w1, boot, w2);
    NothingMarkedAgain(universe, w1, boot, w2);
    BootRemembers(universe, w1, boot, mid2, w2);
    SnapshotsKept(universe, w1, boot, mid2, w2);
    SecondBoot(universe, boot, w1, mid2, w2);
    ThirdBoot(universe, boot, w2, mid3, w3);
    SameTracking(universe, mid2, w2);
    SameOwned(universe, DefaultEnv, mid2, w2);
    NothingChanges(universe, DefaultEnv, boot.defaultEnv, boot.isInstall, w2, mid3);
    NothingChanges(universe, SetEnv, boot.setEnv, boot.isInstall, mid3, w3);
  }

  /**
   An unedited file booted twice under the same environments: a third boot changes neither the file
   nor the tracked state. The first boot may come after any edits, at install time or at runtime.
   */
  lemma ThirdBootChangesNothing(universe: set<Path>, w0: World, first: Boot, w1: World, boot: Boot, w2: World, w3: World)
    requires WellFormed(universe, w0) && AllTraced(universe, w0.tracking) && Parses(first)
    requires first.defaultEnv == boot.defaultEnv && first.setEnv == boot.setEnv
    requires BootStep(universe, w0, first, w1) && BootStep(universe, w1, boot, w2) && BootStep(universe, w2, boot, w3)
    ensures w3 == w2
  {
    var mid1 :| BootThrough(universe, w0, first, mid1, w1);
    BootRemembers(universe, w0, first, mid1, w1);
    OwnershipAfterBoot(universe, w0, first, w1);
    FirstBootOwns(universe, w0, first, w1, boot);
    TwoMoreBoots(universe, boot, w1, w2, w3);
  }

  method BootOnce(ghost universe: set<Path>, file: Node, saved: Tracking, boot: Boot) returns (after: World)
    requires WellFormed(universe, World(file, saved)) && Parses(boot)
    requires Fits(universe, boot.defaultEnv) && Fits(universe, boot.setEnv)
    ensures BootStep(universe, World(file, saved), boot, after)
  {
    var session := new ConfigSession(file, saved);
    var ok := session.ApplyRuntimeEnvConfig(universe, boot);
    after := World(session.fileConfig, session.saved);
  }

  /** Three processes, one after the other, each with what the one before has saved. */
  method BootThreeTimes(ghost universe: set<Path>, file: Node, saved: Tracking, boot: Boot)
      returns (first: World, second: World, third: World)
    requires WellFormed(universe, World(file, saved)) && AllTraced(universe, saved) && Parses(boot)
    requires Fits(universe, boot.defaultEnv) && Fits(universe, boot.setEnv)
    ensures BootStep(universe, World(file, saved), boot, first) && BootStep(universe, first, boot, second)
    ensures third == second
  {
    first := BootOnce(universe, file, saved, boot);
    OwnershipAfterBoot(universe, World(file, saved), boot, first);
    second := BootOnce(universe, first.file, first.tracking, boot);
    OwnershipAfterBoot(universe, first, boot, second);
    third := BootOnce(universe, second.file, second.tracking, boot);
    ThirdBootChangesNothing(universe, World(file, saved), boot, first, boot, second, third);
  }

  // ----- when one boot is enough

  /** DEFAULT names the path, and SET owned it and gives it back in this boot. */
  predicate GivenBack(w: World, boot: Boot, path: Path) {
    && path in EnvLeaves(boot.defaultEnv) && path !in EnvLeaves(boot.setEnv) && !boot.setEnv.Blank?
    && At(Drifted(w, boot.isInstall), path).source == Some(SetEnv)
  }

  /** Both name the path, and DEFAULT owns it, or comes to own it in this boot, before SET takes it over. */
  predicate TakenOver(w: World, boot: Boot, path: Path) {
    && path in EnvLeaves(boot.defaultEnv) && path in EnvLeaves(boot.setEnv)
    && var state := At(Drifted(w, boot.isInstall), path);
       state.source == Some(DefaultEnv) || (state.source.None? && (boot.isInstall || Absent(state.value)))
  }

  lemma FirstTurn(universe: set<Path>, w0: World, boot: Boot, mid1: World, w1: World, path: Path)
    requires BootThrough(universe, w0, boot, mid1, w1) && path in EnvLeaves(boot.defaultEnv) && path in universe
    ensures At(mid1, path) == ByDefault(At(Drifted(w0, boot.isInstall), path), path, boot)
    ensures PathBoot(w0, boot, mid1, w1, path)
  {
  }

  lemma GivenBackIsDropped(universe: set<Path>, w0: World, boot: Boot, mid1: World, w1: World, path: Path)
    requires BootThrough(universe, w0, boot, mid1, w1) && path in universe
    requires Traced(Drifted(w0, boot.isInstall).tracking, path)
    requires GivenBack(w0, boot, path) && Parses(boot)
    ensures At(w1, path).source.None? && At(w1, path).original.None?
  {
    FirstTurn(universe, w0, boot, mid1, w1, path);
    var snapshot := Drifted(w0, boot.isInstall).tracking.snapshots[SetEnv];
    LeavesExactly(snapshot.config, path);
    LeavesExactly(snapshot.hash, path);
    assert Lookup(mid1.tracking.snapshots, SetEnv) == Some(snapshot);
  }

  /** A path that SET does not give back is left by the first boot where both turns of the second leave it. */
  lemma FirstBootFixes(universe: set<Path>, w0: World, boot: Boot, mid1: World, w1: World, path: Path)
    requires BootThrough(universe, w0, boot, mid1, w1) && path in universe
    requires OwnsAt(boot, At(w1, path), path) && !GivenBack(w0, boot, path)
    ensures ByDefault(At(w1, path), path, boot) == At(w1, path) && BySet(At(w1, path), path, boot) == At(w1, path)
  {
    if path in EnvLeaves(boot.setEnv) {
      SetLeafFixed(At(w1, path), path, boot);
    } else if path in EnvLeaves(boot.defaultEnv) {
      FirstTurn(universe, w0, boot, mid1, w1, path);
      ByDefaultIdempotent(At(Drifted(w0, boot.isInstall), path), path, boot);
      assert At(w1, path) == At(mid1, path);
    }
  }

  lemma ComesToOwn(state: PathState, path: Path, boot: Boot)
    requires path in EnvLeaves(boot.defaultEnv)
    ensures ByDefault(state, path, boot).source == Some(DefaultEnv)
       <==> state.source == Some(DefaultEnv) || (state.source.None? && (boot.isInstall || Absent(state.value)))
  {
    if state.source.Some? {
      match state.source.value
      case DefaultEnv =>
      case SetEnv =>
      case User =>
    } else {
      assert Absent(state.value) <==> !HasValue(state.value);
    }
  }

  lemma TakenOverMeans(universe: set<Path>, w0: World, boot: Boot, mid1: World, w1: World, path: Path)
    requires BootThrough(universe, w0, boot, mid1, w1) && path in universe && path in EnvLeaves(boot.defaultEnv)
    ensures TakenOver(w0, boot, path) <==> At(mid1, path).source == Some(DefaultEnv) && path in EnvLeaves(boot.setEnv)
  {
    FirstTurn(universe, w0, boot, mid1, w1, path);
    ComesToOwn(At(Drifted(w0, boot.isInstall), path), path, boot);
  }

  lemma DefaultOwner(universe: set<Path>, w0: World, boot: Boot, mid1: World, w1: World, path: Path)
    requires BootThrough(universe, w0, boot, mid1, w1) && path in universe && boot.defaultEnv.Config?
    requires Traced(Drifted(w0, boot.isInstall).tracking, path)
    ensures TakenOver(w0, boot, path) <==> At(mid1, path).source == Some(DefaultEnv) && path in EnvLeaves(boot.setEnv)
    ensures At(mid1, path).source == Some(DefaultEnv) ==>
      path in EnvLeaves(boot.defaultEnv) && At(mid1, path).value == Get(boot.defaultEnv.config, path) && At(mid1, path).value.Some?
  {
    OwnsItsLeaves(universe, DefaultEnv, boot.defaultEnv.config, boot.isInstall, Drifted(w0, boot.isInstall), mid1, path);
    if path in EnvLeaves(boot.defaultEnv) {
      TakenOverMeans(universe, w0, boot, mid1, w1, path);
    }
  }

  lemma SetLeavesOthers(universe: set<Path>, boot: Boot, mid1: World, w1: World, path: Path)
    requires LayerStep(universe, SetEnv, boot.setEnv, boot.isInstall, mid1, w1) && path in universe
    ensures At(mid1, path).source == Some(DefaultEnv) && path !in EnvLeaves(boot.setEnv) ==> At(w1, path) == At(mid1, path)
    ensures At(w1, path).source == Some(DefaultEnv) ==> At(w1, path) == At(mid1, path)
  {
    assert At(w1, path) == Layered(mid1, path, SetEnv, boot.setEnv, boot.isInstall);
  }

  lemma SameOwnedBy(a: World, b: World)
    requires forall path :: path in a.tracking.sources || path in b.tracking.sources ==>
      (At(a, path).source == Some(DefaultEnv) || At(b, path).source == Some(DefaultEnv) ==> At(b, path) == At(a, path))
    ensures Owned(a, DefaultEnv) == Owned(b, DefaultEnv)
  {
    forall path
      ensures path in Owned(a, DefaultEnv) <==> path in Owned(b, DefaultEnv)
      ensures path in Owned(a, DefaultEnv) && path in Owned(b, DefaultEnv) ==> Owned(a, DefaultEnv)[path] == Owned(b, DefaultEnv)[path]
    {
      assert path in a.tracking.sources || path in b.tracking.sources ==>
        (At(a, path).source == Some(DefaultEnv) || At(b, path).source == Some(DefaultEnv) ==> At(b, path) == At(a, path));
    }
  }

  lemma OwnedUnlessTakenOver(universe: set<Path>, w0: World, boot: Boot, mid1: World, w1: World)
    requires BootThrough(universe, w0, boot, mid1, w1) && boot.defaultEnv.Config?
    requires AllTraced(universe, Drifted(w0, boot.isInstall).tracking)
    requires forall path :: path in universe ==> !TakenOver(w0, boot, path)
    ensures Owned(mid1, DefaultEnv) == Owned(w1, DefaultEnv)
  {
    forall path | path in mid1.tracking.sources || path in w1.tracking.sources
      ensures At(mid1, path).source == Some(DefaultEnv) || At(w1, path).source == Some(DefaultEnv) ==> At(w1, path) == At(mid1, path)
    {
      assert path in universe && Traced(Drifted(w0, boot.isInstall).tracking, path);
      DefaultOwner(universe, w0, boot, mid1, w1, path);
      SetLeavesOthers(universe, boot, mid1, w1, path);
    }
    SameOwnedBy(mid1, w1);
  }

  lemma SnapshotsDiffer(universe: set<Path>, a: Node, inA: map<Path, Node>, b: Node, inB: map<Path, Node>, path: Path)
    requires PrefixFree(universe) && inA.Keys <= universe && inB.Keys <= universe && path in universe
    requires Holds(a, inA) && Holds(b, inB) && path in inA && path !in inB
    ensures a != b
  {
    HoldsGet(a, inA, path);
    HoldsGet(b, inB, path);
  }

  /** DEFAULT's snapshot of the first boot has the path that SET took over, and that of the second has not. */
  lemma TakenOverShows(universe: set<Path>, w0: World, boot: Boot, mid1: World, w1: World, mid2: World, w2: World, path: Path)
    requires BootThrough(universe, w0, boot, mid1, w1) && BootThrough(universe, w1, boot, mid2, w2)
    requires Traced(Drifted(w0, boot.isInstall).tracking, path) && path in universe && TakenOver(w0, boot, path)
    requires Drifted(w1, boot.isInstall) == w1 && OwnsAt(boot, At(w1, path), path)
    ensures w2 != w1
  {
    DefaultOwner(universe, w0, boot, mid1, w1, path);
    SnapshotsKept(universe, w0, boot, mid1, w1);
    SnapshotsKept(universe, w1, boot, mid2, w2);
    BootRemembers(universe, w0, boot, mid1, w1);
    PathThroughMid(universe, w1, boot, mid2, w2, path);
    QuietTurns(w1, boot, mid2, w2, path);
    SetLeafFixed(At(w1, path), path, boot);
    assert path in Owned(mid1, DefaultEnv) && path !in Owned(mid2, DefaultEnv);
    SnapshotsDiffer(universe, w1.tracking.snapshots[DefaultEnv].config, Owned(mid1, DefaultEnv),
                    w2.tracking.snapshots[DefaultEnv].config, Owned(mid2, DefaultEnv), path);
  }

  lemma TakenAgain(state: PathState, path: Path, boot: Boot)
    requires state.source.None? && state.original.None?
    requires path in EnvLeaves(boot.defaultEnv) && path !in EnvLeaves(boot.setEnv)
    ensures BySet(ByDefault(state, path, boot), path, boot) != state
  {
  }

  lemma QuietSecondBoot(universe: set<Path>, w1: World, boot: Boot, mid2: World, w2: World, path: Path)
    requires BootThrough(universe, w1, boot, mid2, w2) && path in universe && Drifted(w1, boot.isInstall) == w1
    requires Remembers(w1.tracking, DefaultEnv, boot.defaultEnv) && Remembers(w1.tracking, SetEnv, boot.setEnv)
    ensures At(w2, path) == BySet(ByDefault(At(w1, path), path, boot), path, boot)
  {
    PathThroughMid(universe, w1, boot, mid2, w2, path);
    QuietTurns(w1, boot, mid2, w2, path);
  }

  lemma GivenBackShows(universe: set<Path>, w0: World, boot: Boot, mid1: World, w1: World, mid2: World, w2: World, path: Path)
    requires BootThrough(universe, w0, boot, mid1, w1) && BootThrough(universe, w1, boot, mid2, w2)
    requires Traced(Drifted(w0, boot.isInstall).tracking, path) && path in universe
    requires GivenBack(w0, boot, path) && Parses(boot) && Drifted(w1, boot.isInstall) == w1
    ensures At(w2, path) != At(w1, path)
  {
    GivenBackIsDropped(universe, w0, boot, mid1, w1, path);
    TakenAgain(At(w1, path), path, boot);
    BootRemembers(universe, w0, boot, mid1, w1);
    QuietSecondBoot(universe, w1, boot, mid2, w2, path);
  }

  lemma NothingLeftToDo(universe: set<Path>, w0: World, boot: Boot, mid1: World, w1: World, mid2: World, w2: World)
    requires BootThrough(universe, w0, boot, mid1, w1) && BootThrough(universe, w1, boot, mid2, w2)
    requires AllTraced(universe, Drifted(w0, boot.isInstall).tracking)
    requires WellFormed(universe, w1) && Owns(universe, boot, w1) && Drifted(w1, boot.isInstall) == w1
    requires forall path :: path in universe ==> !GivenBack(w0, boot, path) && !TakenOver(w0, boot, path)
    ensures w2 == w1
  {
    forall path | path in universe
      ensures ByDefault(At(w1, path), path, boot) == At(w1, path) && BySet(At(w1, path), path, boot) == At(w1, path)
    {
      assert OwnsAt(boot, At(w1, path), path);
      FirstBootFixes(universe, w0, boot, mid1, w1, path);
    }
    BootRemembers(universe, w0, boot, mid1, w1);
    SnapshotsKept(universe, w0, boot, mid1, w1);
    ThirdBoot(universe, boot, w1, mid2, w2);
    if boot.defaultEnv.Config? {
      OwnedUnlessTakenOver(universe, w0, boot, mid1, w1);
    }
    NothingChanges(universe, DefaultEnv, boot.defaultEnv, boot.isInstall, w1, mid2);
    NothingChanges(universe, SetEnv, boot.setEnv, boot.isInstall, mid2, w2);
  }

  /**
   One boot is enough, so that a second under the same environments changes neither the file nor the tracked state,
   exactly when SET gives back no path that DEFAULT names, and takes over none from DEFAULT.
   */
  lemma OneBootIsEnoughExactly(universe: set<Path>, w0: World, boot: Boot, w1: World, w2: World)
    requires WellFormed(universe, w0) && AllTraced(universe, w0.tracking) && Parses(boot)
    requires BootStep(universe, w0, boot, w1) && BootStep(universe, w1, boot, w2)
    ensures w2 == w1 <==> forall path :: path in universe ==> !GivenBack(w0, boot, path) && !TakenOver(w0, boot, path)
  {
    var mid1 :| BootThrough(universe, w0, boot, mid1, w1);
    var mid2 :| BootThrough(universe, w1, boot, mid2, w2);
    DriftMarked(universe, w0, boot.isInstall);
    OwnershipAfterBoot(universe, w0, boot, w1);
    NothingMarkedAgain(universe, w0, boot, w1);
    if path :| path in universe && (GivenBack(w0, boot, path) || TakenOver(w0, boot, path)) {
      assert Traced(Drifted(w0, boot.isInstall).tracking, path) && OwnsAt(boot, At(w1, path), path);
      if GivenBack(w0, boot, path) {
        GivenBackShows(universe, w0, boot, mid1, w1, mid2, w2, path);
      } else {
        TakenOverShows(universe, w0, boot, mid1, w1, mid2, w2, path);
      }
    } else {
      NothingLeftToDo(universe, w0, boot, mid1, w1, mid2, w2);
    }
  }

  /**
   Why one boot is not enough: a path that SET drops, and that DEFAULT names, is deleted by the first
   boot when no original was recorded, and put back by DEFAULT in the second.
   */
  lemma DroppedThenReadded(w0: World, boot: Boot, mid1: World, w1: World, mid2: World, w2: World, path: Path)
    requires PathBoot(w0, boot, mid1, w1, path) && PathBoot(w1, boot, mid2, w2, path)
    requires Held(w0, path, SetEnv, None) && Current(w0, path) && Traced(w0.tracking, path)
    requires boot.setEnv.Unset? && Names(boot.defaultEnv, path) && SetEnv !in w1.tracking.snapshots
    requires Remembers(w1.tracking, DefaultEnv, boot.defaultEnv)
    ensures Get(w1.file, path) == None && At(w2, path) == PathState(Get(boot.defaultEnv.config, path), Some(DefaultEnv), None)
  {
    GivesBack(w0, boot, mid1, w1, path, SetEnv, None);
    NoDriftAt(w1, boot.isInstall, path);
    LeavesExactly(boot.defaultEnv.config, path);
  }
}
