/**
 The boot as the source runs it: loops over paths that change the file, the sources, the original
 values and the snapshots in place, proved against `EnvConfig.BootStep`.
 */
module EnvConfigSession {
  import opened Wrappers
  import opened ConfigTree
  import opened EnvConfig

  function Put<V>(m: map<Path, V>, path: Path, v: Option<V>): map<Path, V> {
    if v.None? then m - {path} else m[path := v.value]
  }

  /** The file changes at one path only, and not at all if the value was there already. */
  ghost predicate ChangedAt(file: Node, file': Node, path: Path, value: Option<Node>) {
    && file'.Obj? && Get(file', path) == value
    && (forall other {:trigger Apart(path, other)} :: Apart(path, other) ==> Get(file', other) == Get(file, other))
    && (Get(file, path) == value ==> file' == file)
  }

  /** One path goes to the given state; all else stays. */
  ghost predicate PathStep(w: World, w': World, path: Path, state: PathState) {
    && ChangedAt(w.file, w'.file, path, state.value)
    && w'.tracking.sources == Put(w.tracking.sources, path, state.source)
    && w'.tracking.originals == Put(w.tracking.originals, path, state.original)
    && w'.tracking.snapshots == w.tracking.snapshots
  }

  ghost predicate AtTargets(universe: set<Path>, w: World, w': World, done: set<Path>, target: map<Path, PathState>)
    requires done <= universe <= target.Keys
  {
    forall path {:trigger At(w', path)} :: path in universe ==> At(w', path) == if path in done then target[path] else At(w, path)
  }

  ghost predicate SameUntil(w: World, w': World, done: set<Path>, target: map<Path, PathState>)
    requires done <= target.Keys
  {
    (forall path :: path in done ==> target[path].value == At(w, path).value) ==> w'.file == w.file
  }

  /** The world after the paths in `done` have reached their targets. */
  ghost predicate Staged(universe: set<Path>, w: World, w': World, done: set<Path>, target: map<Path, PathState>) {
    && done <= universe <= target.Keys
    && WellFormed(universe, w') && w'.tracking.snapshots == w.tracking.snapshots
    && AtTargets(universe, w, w', done, target)
    && Framed(w.file, w'.file, done)
    && SameUntil(w, w', done, target)
  }

  lemma StepAt(universe: set<Path>, w: World, w': World, path: Path, state: PathState, other: Path)
    requires WellFormed(universe, w) && PathStep(w, w', path, state) && path in universe && other in universe
    ensures At(w', other) == if other == path then state else At(w, other)
  {
    if other != path {
      assert Apart(path, other);
    }
  }

  lemma StepKeepsFrame(before: Node, file: Node, file': Node, done: set<Path>, path: Path, value: Option<Node>)
    requires Framed(before, file, done) && ChangedAt(file, file', path, value)
    ensures Framed(before, file', done + {path})
  {
    forall other | ApartFromAll(done + {path}, other)
      ensures Get(file', other) == Get(before, other)
    {
      assert path in done + {path};
      assert Apart(path, other) && ApartFromAll(done, other);
    }
  }

  lemma StagedStep(universe: set<Path>, w: World, w1: World, done: set<Path>, target: map<Path, PathState>, path: Path, w2: World)
    requires Staged(universe, w, w1, done, target) && path in universe && path !in done
    requires PathStep(w1, w2, path, target[path])
    ensures Staged(universe, w, w2, done + {path}, target)
  {
    forall other | other in universe
      ensures At(w2, other) == if other in done + {path} then target[other] else At(w, other)
    {
      StepAt(universe, w1, w2, path, target[path], other);
    }
    StepKeepsFrame(w.file, w1.file, w2.file, done, path, target[path].value);
    if forall p :: p in done + {path} ==> target[p].value == At(w, p).value {
      assert forall t :: t in done ==> t in done + {path};
      assert path in done + {path};
      assert At(w1, path) == At(w, path);
    }
  }

  /** A path of the universe that is not done yet is still in its first state. */
  lemma NotDone(universe: set<Path>, w: World, w1: World, done: set<Path>, target: map<Path, PathState>, path: Path)
    requires Staged(universe, w, w1, done, target) && path in universe && path !in done
    ensures At(w1, path) == At(w, path) && path != [] && w1.file.Obj?
  {
  }

  /** The environment's paths have been applied and nothing else has happened. */
  ghost predicate Applied(universe: set<Path>, me: Source, config: Node, isInstall: bool, w: World, w1: World) {
    && Leaves(config) <= universe && WellFormed(universe, w1) && w1.tracking.snapshots == w.tracking.snapshots
    && (forall path {:trigger At(w1, path)} :: path in universe ==> At(w1, path) == AppliedAt(w, path, me, config, isInstall))
    && Framed(w.file, w1.file, Leaves(config))
    && (SameValues(universe, w, w1) ==> w1.file == w.file)
  }

  lemma FramedBoth(a: Node, b: Node, c: Node, first: set<Path>, second: set<Path>, touched: set<Path>)
    requires Framed(a, b, first) && Framed(b, c, second) && first + second <= touched
    ensures Framed(a, c, touched)
  {
    forall path | ApartFromAll(touched, path)
      ensures Get(c, path) == Get(a, path)
    {
      assert ApartFromAll(first, path) && ApartFromAll(second, path);
    }
  }

  function Outdating(w: World, me: Source, config: Node): set<Path> {
    if me in w.tracking.snapshots && w.tracking.snapshots[me].hash != config
    then Leaves(w.tracking.snapshots[me].config) - Leaves(config) else {}
  }

  lemma LayerOfConfig(universe: set<Path>, me: Source, config: Node, isInstall: bool, w: World, w1: World, w2: World, paths: set<Path>)
    requires Applied(universe, me, config, isInstall, w, w1)
    requires paths == Outdating(w, me, config)
    requires Staged(universe, w1, w2, OwnedPaths(w1, me) * paths, map path | path in universe :: Dropped(At(w1, path), me))
    ensures forall path :: path in universe ==> At(w2, path) == Layered(w, path, me, Config(config), isInstall)
    ensures Framed(w.file, w2.file, Leaves(config) + OwnedPaths(w, me))
    ensures SameValues(universe, w, w2) ==> w2.file == w.file
  {
    forall path | path in OwnedPaths(w1, me) * paths
      ensures path in OwnedPaths(w, me)
    {
      assert path in universe;
      assert At(w1, path).source == Some(me);
    }
    FramedBoth(w.file, w1.file, w2.file, Leaves(config), OwnedPaths(w1, me) * paths, Leaves(config) + OwnedPaths(w, me));
    forall path | path in universe
      ensures At(w2, path) == Layered(w, path, me, Config(config), isInstall)
      ensures At(w2, path).value == At(w, path).value ==> At(w1, path).value == At(w, path).value
    {
      assert At(w1, path) == AppliedAt(w, path, me, config, isInstall);
      assert path in OwnedPaths(w1, me) <==> At(w1, path).source == Some(me);
    }
    if SameValues(universe, w, w2) {
      assert SameValues(universe, w, w1);
      assert forall path :: path in OwnedPaths(w1, me) * paths ==> Dropped(At(w1, path), me).value == At(w1, path).value;
    }
  }

  lemma LayerOfCleanup(universe: set<Path>, me: Source, w: World, w1: World)
    requires Staged(universe, w, w1, OwnedPaths(w, me) * OwnedPaths(w, me), map path | path in universe :: Dropped(At(w, path), me))
    ensures var w' := World(w1.file, w1.tracking.(snapshots := w1.tracking.snapshots - {me}));
            && (forall path :: path in universe ==> At(w', path) == Dropped(At(w, path), me))
            && Framed(w.file, w'.file, {} + OwnedPaths(w, me))
            && (SameValues(universe, w, w') ==> w'.file == w.file)
  {
    assert OwnedPaths(w, me) * OwnedPaths(w, me) == OwnedPaths(w, me);
    assert {} + OwnedPaths(w, me) == OwnedPaths(w, me);
    forall path | path in universe
      ensures At(w1, path) == Dropped(At(w, path), me)
    {
      assert path in OwnedPaths(w, me) <==> At(w, path).source == Some(me);
    }
    if SameValues(universe, w, w1) {
      assert forall path :: path in OwnedPaths(w, me) ==> At(w1, path).value == At(w, path).value;
    }
  }

  lemma NothingToDo(universe: set<Path>, w: World, boot: Boot)
    requires WellFormed(universe, w) && boot.defaultEnv.Unset? && boot.setEnv.Unset? && w.tracking.snapshots == map[]
    ensures BootStep(universe, w, boot, w)
  {
    assert Drifted(w, boot.isInstall) == w;
    assert LayerStep(universe, DefaultEnv, Unset, boot.isInstall, w, w);
    assert LayerStep(universe, SetEnv, Unset, boot.isInstall, w, w);
    assert BootThrough(universe, w, boot, w, w);
  }

  class ConfigSession {
    var fileConfig: Node
    var state: Tracking // the working copy
    var saved: Tracking // the state file

    constructor (fileConfig: Node, saved: Tracking)
      ensures this.fileConfig == fileConfig && this.saved == saved && this.state == saved
    {
      this.fileConfig := fileConfig;
      this.state := saved;
      this.saved := saved;
    }

    function Working(): World
      reads this
    {
      World(fileConfig, state)
    }

    method SetNestedValue(path: Path, value: Node)
      requires path != [] && fileConfig.Obj?
      modifies this`fileConfig
      ensures ChangedAt(old(fileConfig), fileConfig, path, Some(value))
    {
      GetAfterSet(fileConfig, path, value);
      forall other | Apart(path, other)
        ensures Get(SetAt(fileConfig, path, value), other) == Get(fileConfig, other)
      {
        SetFrame(fileConfig, path, value, other);
      }
      if Get(fileConfig, path) == Some(value) {
        SetSame(fileConfig, path, value);
      }
      fileConfig := SetAt(fileConfig, path, value);
    }

    method DeleteNestedValue(path: Path)
      requires path != [] && fileConfig.Obj?
      modifies this`fileConfig
      ensures ChangedAt(old(fileConfig), fileConfig, path, None)
    {
      GetAfterDelete(fileConfig, path);
      forall other | Apart(path, other)
        ensures Get(DeleteAt(fileConfig, path), other) == Get(fileConfig, other)
      {
        DeleteFrame(fileConfig, path, other);
      }
      if Get(fileConfig, path) == None {
        DeleteSame(fileConfig, path);
      }
      fileConfig := DeleteAt(fileConfig, path);
    }

    /** The paths whose file value is no longer the snapshot's become the user's. */
    method MarkDrift()
      modifies this`state
      ensures Working() == Drifted(old(Working()), false)
    {
      var driftedPaths: set<Path> := {};
      var todo := state.sources.Keys;
      while todo != {}
        invariant todo <= state.sources.Keys && state == old(state)
        invariant driftedPaths == set path | path in state.sources.Keys - todo && HasDrifted(Working(), path)
      {
        var path :| path in todo;
        todo := todo - {path};
        var source := state.sources[path];
        if source != User && source in state.snapshots {
          var currentValue := GetNestedValue(fileConfig, path);
          var expectedValue := GetNestedValue(state.snapshots[source].config, path);
          if currentValue != expectedValue {
            driftedPaths := driftedPaths + {path};
          }
        }
      }
      ghost var marks := driftedPaths;
      while driftedPaths != {}
        invariant driftedPaths <= marks <= old(state).sources.Keys
        invariant state.sources.Keys == old(state).sources.Keys
        invariant state == old(state).(sources := state.sources)
        invariant forall path :: path in state.sources ==>
          state.sources[path] == if path in marks - driftedPaths then User else old(state).sources[path]
      {
        var path :| path in driftedPaths;
        state := state.(sources := state.sources[path := User]);
        driftedPaths := driftedPaths - {path};
      }
    }

    method OverlayPath(path: Path, value: Node, me: Source, respectSources: set<Source>)
      requires path != [] && fileConfig.Obj?
      modifies this`fileConfig, this`state
      ensures PathStep(old(Working()), Working(), path, Overlaid(At(old(Working()), path), value, me, respectSources))
    {
      var currentSource := Lookup(state.sources, path);
      var currentValue := GetNestedValue(fileConfig, path);
      if currentSource.Some? && currentSource.value in respectSources {
        return;
      }
      if currentSource.None? && HasValue(currentValue) {
        if path !in state.originals {
          state := state.(originals := state.originals[path := currentValue.value]);
        }
      }
      SetNestedValue(path, value);
      state := state.(sources := state.sources[path := me]);
    }

    method ApplyConfigLayer(ghost universe: set<Path>, envConfig: Node, me: Source, respectSources: set<Source>)
      requires WellFormed(universe, Working()) && Leaves(envConfig) <= universe && me != User
      modifies this`fileConfig, this`state
      ensures Staged(universe, old(Working()), Working(), Leaves(envConfig),
                     map path | path in universe :: Overlaid(At(old(Working()), path), LeafOf(envConfig, path), me, respectSources))
    {
      ghost var w := Working();
      ghost var target := map path | path in universe :: Overlaid(At(w, path), LeafOf(envConfig, path), me, respectSources);
      var todo := Leaves(envConfig);
      while todo != {}
        invariant todo <= Leaves(envConfig)
        invariant Staged(universe, w, Working(), Leaves(envConfig) - todo, target)
      {
        var path :| path in todo;
        ghost var w1, done := Working(), Leaves(envConfig) - todo;
        LeavesExactly(envConfig, path);
        NotDone(universe, w, w1, done, target, path);
        OverlayPath(path, Get(envConfig, path).value, me, respectSources);
        StagedStep(universe, w, w1, done, target, path, Working());
        todo := todo - {path};
        assert Leaves(envConfig) - todo == done + {path};
      }
      assert Leaves(envConfig) - todo == Leaves(envConfig);
    }

    method DefaultPath(path: Path, value: Node)
      requires path != [] && fileConfig.Obj?
      modifies this`fileConfig, this`state
      ensures PathStep(old(Working()), Working(), path, Defaulted(At(old(Working()), path), value))
    {
      var currentSource := Lookup(state.sources, path);
      var currentValue := GetNestedValue(fileConfig, path);
      if currentSource.Some? && currentSource != Some(DefaultEnv) {
        return;
      }
      if currentSource.None? {
        if HasValue(currentValue) {
          if path !in state.originals {
            state := state.(originals := state.originals[path := currentValue.value]);
          }
          return;
        }
      }
      SetNestedValue(path, value);
      state := state.(sources := state.sources[path := DefaultEnv]);
    }

    /** HARPER_DEFAULT_CONFIG at runtime: only values that it set before, or that do not exist. */
    method ApplyDefaultsAtRuntime(ghost universe: set<Path>, envConfig: Node)
      requires WellFormed(universe, Working()) && Leaves(envConfig) <= universe
      modifies this`fileConfig, this`state
      ensures Staged(universe, old(Working()), Working(), Leaves(envConfig),
                     map path | path in universe :: Defaulted(At(old(Working()), path), LeafOf(envConfig, path)))
    {
      ghost var w := Working();
      ghost var target := map path | path in universe :: Defaulted(At(w, path), LeafOf(envConfig, path));
      var todo := Leaves(envConfig);
      while todo != {}
        invariant todo <= Leaves(envConfig)
        invariant Staged(universe, w, Working(), Leaves(envConfig) - todo, target)
      {
        var path :| path in todo;
        ghost var w1, done := Working(), Leaves(envConfig) - todo;
        LeavesExactly(envConfig, path);
        NotDone(universe, w, w1, done, target, path);
        DefaultPath(path, Get(envConfig, path).value);
        StagedStep(universe, w, w1, done, target, path, Working());
        todo := todo - {path};
        assert Leaves(envConfig) - todo == done + {path};
      }
      assert Leaves(envConfig) - todo == Leaves(envConfig);
    }

    method DropPath(path: Path, me: Source)
      requires path != [] && fileConfig.Obj?
      requires path in state.sources && state.sources[path] == me
      modifies this`fileConfig, this`state
      ensures PathStep(old(Working()), Working(), path, Dropped(At(old(Working()), path), me))
    {
      if path in state.originals {
        SetNestedValue(path, state.originals[path]);
        state := state.(originals := state.originals - {path});
      } else {
        DeleteNestedValue(path);
      }
      state := state.(sources := state.sources - {path});
    }

    /** Give back the paths in `paths` that the source owns: the loops of `handleDeletions` and of the cleanup. */
    method DropPaths(ghost universe: set<Path>, paths: set<Path>, me: Source)
      requires WellFormed(universe, Working())
      modifies this`fileConfig, this`state
      ensures Staged(universe, old(Working()), Working(), OwnedPaths(old(Working()), me) * paths,
                     map path | path in universe :: Dropped(At(old(Working()), path), me))
    {
      ghost var w := Working();
      ghost var owned := OwnedPaths(w, me);
      ghost var target := map path | path in universe :: Dropped(At(w, path), me);
      var todo := paths;
      while todo != {}
        invariant todo <= paths
        invariant Staged(universe, w, Working(), owned * (paths - todo), target)
      {
        var path :| path in todo;
        ghost var w1, done := Working(), owned * (paths - todo);
        if path in universe {
          NotDone(universe, w, w1, done, target, path);
        }
        assert path in owned <==> path in state.sources && state.sources[path] == me;
        if path in state.sources && state.sources[path] == me {
          DropPath(path, me);
          StagedStep(universe, w, w1, done, target, path, Working());
          assert owned * (paths - (todo - {path})) == done + {path};
        } else {
          assert owned * (paths - (todo - {path})) == done;
        }
        todo := todo - {path};
      }
      assert paths - todo == paths;
    }

    method BuildSnapshot(ghost universe: set<Path>, me: Source) returns (actuallySet: Node)
      requires WellFormed(universe, Working())
      ensures Holds(actuallySet, Owned(Working(), me))
    {
      ghost var owned := Owned(Working(), me);
      actuallySet := EMPTY;
      var todo := state.sources.Keys;
      while todo != {}
        invariant todo <= state.sources.Keys
        invariant Holds(actuallySet, owned - todo)
      {
        var path :| path in todo;
        ghost var done := owned - todo;
        assert path in universe;
        if state.sources[path] == me {
          var value := GetNestedValue(fileConfig, path);
          if value.Some? {
            forall q | q in done
              ensures Apart(path, q)
            {
              assert q in universe && q != path;
            }
            HoldsAfterSet(actuallySet, done, path, value.value);
            actuallySet := SetAt(actuallySet, path, value.value);
            assert owned - (todo - {path}) == done[path := value.value];
          }
        }
        assert path !in owned ==> owned - (todo - {path}) == done;
        todo := todo - {path};
      }
      assert owned - todo == owned;
    }

    method ApplyLayer(ghost universe: set<Path>, me: Source, envConfig: Node, isInstall: bool)
      requires WellFormed(universe, Working()) && me != User && Fits(universe, Config(envConfig))
      modifies this`fileConfig, this`state
      ensures Applied(universe, me, envConfig, isInstall, old(Working()), Working())
    {
      ghost var w := Working();
      if me == SetEnv {
        ApplyConfigLayer(universe, envConfig, me, {}); // overrides everything
      } else if isInstall {
        ApplyConfigLayer(universe, envConfig, me, {SetEnv, User});
      } else {
        ApplyDefaultsAtRuntime(universe, envConfig);
      }
      assert forall path :: path in universe ==> At(Working(), path) == AppliedAt(w, path, me, envConfig, isInstall);
      if SameValues(universe, w, Working()) {
        assert forall path :: path in Leaves(envConfig) ==> At(Working(), path).value == At(w, path).value;
      }
    }

    method HandleDeletions(ghost universe: set<Path>, me: Source, previous: Option<Snapshot>, envConfig: Node, ghost isInstall: bool, ghost w: World)
      requires Applied(universe, me, envConfig, isInstall, w, Working()) && previous == Lookup(w.tracking.snapshots, me)
      modifies this`fileConfig, this`state
      ensures WellFormed(universe, Working()) && state.snapshots == w.tracking.snapshots
      ensures forall path :: path in universe ==> At(Working(), path) == Layered(w, path, me, Config(envConfig), isInstall)
      ensures Framed(w.file, fileConfig, Leaves(envConfig) + OwnedPaths(w, me))
      ensures SameValues(universe, w, Working()) ==> fileConfig == w.file
    {
      ghost var w1 := Working();
      var deletedPaths := {};
      if previous.Some? && previous.value.hash != envConfig {
        deletedPaths := Leaves(previous.value.config) - Leaves(envConfig);
      }
      DropPaths(universe, deletedPaths, me);
      LayerOfConfig(universe, me, envConfig, isInstall, w, w1, Working(), deletedPaths);
    }

    method StoreSnapshot(ghost universe: set<Path>, me: Source, envConfig: Node, ghost w: World)
      requires WellFormed(universe, Working()) && me != User && state.snapshots == w.tracking.snapshots
      modifies this`state
      ensures fileConfig == old(fileConfig) && state == old(state).(snapshots := state.snapshots)
      ensures WellFormed(universe, Working()) && SnapshotTaken(me, Config(envConfig), w, Working())
    {
      ghost var before := Working();
      var config := BuildSnapshot(universe, me);
      state := state.(snapshots := state.snapshots[me := Snapshot(envConfig, config)]);
      assert Owned(Working(), me) == Owned(before, me);
    }

    /** Apply a parsed environment configuration, give back what it no longer names, take the snapshot. */
    method ProcessEnvVar(ghost universe: set<Path>, me: Source, envConfig: Node, isInstall: bool)
      requires WellFormed(universe, Working()) && me != User && Fits(universe, Config(envConfig))
      modifies this`fileConfig, this`state
      ensures LayerStep(universe, me, Config(envConfig), isInstall, old(Working()), Working())
    {
      ghost var w := Working();
      var previousSnapshot := Lookup(state.snapshots, me);
      ApplyLayer(universe, me, envConfig, isInstall);
      HandleDeletions(universe, me, previousSnapshot, envConfig, isInstall, w);
      ghost var w2 := Working();
      StoreSnapshot(universe, me, envConfig, w);
      forall path | path in universe
        ensures At(Working(), path) == Layered(w, path, me, Config(envConfig), isInstall)
      {
        assert At(Working(), path) == At(w2, path);
      }
      assert SameValues(universe, w, Working()) ==> SameValues(universe, w, w2);
    }

    /** Nothing without a snapshot; otherwise every path of the source is given back and the snapshot goes. */
    method CleanupRemovedEnvVar(ghost universe: set<Path>, me: Source, isInstall: bool)
      requires WellFormed(universe, Working()) && me != User
      modifies this`fileConfig, this`state
      ensures LayerStep(universe, me, Unset, isInstall, old(Working()), Working())
    {
      ghost var w := Working();
      if me !in state.snapshots {
        return;
      }
      var pathsToCleanup := set path | path in state.sources && state.sources[path] == me;
      DropPaths(universe, pathsToCleanup, me);
      LayerOfCleanup(universe, me, w, Working());
      state := state.(snapshots := state.snapshots - {me});
    }

    /** One environment variable: parse and process it, or clean up when it is gone. */
    method ProcessLayer(ghost universe: set<Path>, me: Source, env: EnvVar, isInstall: bool)
      requires WellFormed(universe, Working()) && me != User && Fits(universe, env) && !env.Malformed?
      modifies this`fileConfig, this`state
      ensures LayerStep(universe, me, env, isInstall, old(Working()), Working())
    {
      match env
      case Config(envConfig) => ProcessEnvVar(universe, me, envConfig, isInstall);
      case Unset => CleanupRemovedEnvVar(universe, me, isInstall);
      case Blank =>
    }

    /** False when an environment variable does not parse; the source then throws and saves nothing. */
    method ApplyRuntimeEnvConfig(ghost universe: set<Path>, boot: Boot) returns (ok: bool)
      requires WellFormed(universe, World(fileConfig, saved))
      requires Fits(universe, boot.defaultEnv) && Fits(universe, boot.setEnv)
      modifies this
      ensures ok <==> !boot.defaultEnv.Malformed? && !boot.setEnv.Malformed?
      ensures !ok ==> saved == old(saved)
      ensures ok ==> BootStep(universe, old(World(fileConfig, saved)), boot, World(fileConfig, saved))
    {
      ghost var w := World(fileConfig, saved);
      state := saved;
      if boot.defaultEnv.Unset? && boot.setEnv.Unset? && state.snapshots == map[] {
        NothingToDo(universe, w, boot);
        return true;
      }
      if !boot.isInstall {
        MarkDrift();
      }
      assert Working() == Drifted(w, boot.isInstall);
      if boot.defaultEnv.Malformed? {
        return false;
      }
      ProcessLayer(universe, DefaultEnv, boot.defaultEnv, boot.isInstall);
      ghost var mid := Working();
      if boot.setEnv.Malformed? {
        return false;
      }
      ProcessLayer(universe, SetEnv, boot.setEnv, boot.isInstall);
      saved := state;
      assert BootThrough(universe, w, boot, mid, World(fileConfig, saved));
      return true;
    }
  }
}
