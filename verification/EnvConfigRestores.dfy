/**
 What an environment gives back: the value that it found when it took a path, at the boot in which it no longer names
 it. And what it never takes back: a value that the user has put in the place of its own.
 */
module EnvConfigRestores {
  import opened Wrappers
  import opened ConfigTree
  import opened EnvConfig
  import opened EnvConfigRuns

  function EnvOf(boot: Boot, owner: Source): EnvVar {
    if owner == SetEnv then boot.setEnv else boot.defaultEnv
  }

  predicate Names(env: EnvVar, path: Path) {
    env.Config? && path in Leaves(env.config)
  }

  /** The variable has gone, or has changed and no longer names the path. */
  predicate LetsGo(env: EnvVar, path: Path) {
    env.Unset? || (env.Config? && !Names(env, path))
  }

  function NullAsAbsent(value: Option<Node>): Option<Node> {
    if Absent(value) then None else value
  }

  /** What is to be put back at a path without an owner: what was recorded before, or else what is there now. */
  function Remembered(state: PathState): Option<Node> {
    if state.original.Some? then state.original else NullAsAbsent(state.value)
  }

  /** The owner holds the path and remembers what to put back. */
  predicate Held(w: World, path: Path, owner: Source, original: Option<Node>) {
    At(w, path).source == Some(owner) && At(w, path).original == original
  }

  // ----- one boot

  /** SET takes every path that it names. */
  lemma SetTakes(w: World, boot: Boot, mid: World, w': World, path: Path)
    requires PathBoot(w, boot, mid, w', path) && At(w, path).source.None? && Names(boot.setEnv, path)
    ensures Held(w', path, SetEnv, Remembered(At(w, path)))
  {
    NoDriftAt(w, boot.isInstall, path);
    assert At(mid, path).original == Remembered(At(w, path)) || At(mid, path) == At(w, path);
  }

  /** DEFAULT takes a path that it names when it installs, or when the file has no value there. */
  lemma DefaultTakes(w: World, boot: Boot, mid: World, w': World, path: Path)
    requires PathBoot(w, boot, mid, w', path) && At(w, path).source.None?
    requires Names(boot.defaultEnv, path) && path !in EnvLeaves(boot.setEnv) && (boot.isInstall || Absent(At(w, path).value))
    ensures Held(w', path, DefaultEnv, Remembered(At(w, path)))
  {
    NoDriftAt(w, boot.isInstall, path);
  }

  /** DEFAULT's turn does not touch a path that SET holds, and SET's turn no path that it does not name. */
  lemma HeldThroughOther(w: World, boot: Boot, mid: World, w': World, path: Path, owner: Source)
    requires PathBoot(w, boot, mid, w', path) && At(w, path).source == Some(owner) && Current(w, path)
    ensures owner == SetEnv ==> At(mid, path) == At(w, path)
    ensures owner == DefaultEnv && path !in EnvLeaves(boot.setEnv) && At(mid, path).source != Some(SetEnv) ==> At(w', path) == At(mid, path)
    ensures At(Drifted(w, boot.isInstall), path) == At(w, path)
  {
    NoDriftAt(w, boot.isInstall, path);
  }

  lemma KeepsHolding(w: World, boot: Boot, mid: World, w': World, path: Path, owner: Source, original: Option<Node>)
    requires PathBoot(w, boot, mid, w', path) && Held(w, path, owner, original) && Current(w, path) && owner != User
    requires EnvOf(boot, owner).Blank? || Names(EnvOf(boot, owner), path)
    requires owner == DefaultEnv ==> path !in EnvLeaves(boot.setEnv)
    ensures Held(w', path, owner, original)
  {
    HeldThroughOther(w, boot, mid, w', path, owner);
  }

  lemma GivesBack(w: World, boot: Boot, mid: World, w': World, path: Path, owner: Source, original: Option<Node>)
    requires PathBoot(w, boot, mid, w', path) && owner != User
    requires Held(w, path, owner, original) && Current(w, path) && Traced(w.tracking, path)
    requires LetsGo(EnvOf(boot, owner), path) && (owner == DefaultEnv ==> path !in EnvLeaves(boot.setEnv))
    ensures At(w', path) == PathState(original, None, None)
  {
    HeldThroughOther(w, boot, mid, w', path, owner);
    var snapshot := w.tracking.snapshots[owner];
    assert Lookup(mid.tracking.snapshots, SetEnv) == Lookup(w.tracking.snapshots, SetEnv);
    LeavesExactly(snapshot.config, path);
    var env := EnvOf(boot, owner);
    if env.Config? {
      LeavesExactly(env.config, path);
      assert Outdated(if owner == SetEnv then mid else Drifted(w, boot.isInstall), path, owner, env.config);
    }
  }

  // ----- runs

  /**
   The boots from `enter` to before `leave` name the path in the owner's variable, or have that blank, and nobody
   edits the path. SET is stronger, so that it must not name a path that DEFAULT is to keep.
   */
  ghost predicate Stays(visits: seq<Visit>, worlds: seq<World>, path: Path, owner: Source, enter: nat, leave: nat)
    requires |worlds| == |visits| + 1 && leave < |visits|
  {
    && (forall k :: enter < k <= leave ==> Get(visits[k].file, path) == Get(worlds[k].file, path))
    && (forall k :: enter <= k < leave ==> EnvOf(visits[k].boot, owner).Blank? || Names(EnvOf(visits[k].boot, owner), path))
    && (owner == DefaultEnv ==> forall k :: enter <= k <= leave ==> path !in EnvLeaves(visits[k].boot.setEnv))
  }

  lemma CurrentAfterEdit(w: World, edited: Node, path: Path)
    requires Current(w, path) && Get(edited, path) == Get(w.file, path)
    ensures Current(World(edited, w.tracking), path)
  {
  }

  lemma StillCurrent(universe: set<Path>, visits: seq<Visit>, worlds: seq<World>, k: nat, path: Path)
    requires Run(universe, visits, worlds) && k < |visits| && Current(worlds[k], path)
    requires Get(visits[k].file, path) == Get(worlds[k].file, path)
    ensures Current(Found(visits, worlds, k), path) && Current(worlds[k + 1], path)
  {
    CurrentAfterEdit(worlds[k], visits[k].file, path);
    OwnershipOverRuns(universe, visits, worlds, k);
    assert !HasDrifted(Found(visits, worlds, k), path) && !HasDrifted(worlds[k + 1], path);
  }

  lemma TakenIsCurrent(universe: set<Path>, visits: seq<Visit>, worlds: seq<World>, k: nat, path: Path)
    requires Run(universe, visits, worlds) && k < |visits| && At(Found(visits, worlds, k), path).source.None?
    ensures Current(worlds[k + 1], path)
  {
    OwnershipOverRuns(universe, visits, worlds, k);
    assert !HasDrifted(Found(visits, worlds, k), path) && !HasDrifted(worlds[k + 1], path);
  }

  lemma StillHeld(universe: set<Path>, visits: seq<Visit>, worlds: seq<World>, path: Path, owner: Source, k: nat, original: Option<Node>)
    requires Run(universe, visits, worlds) && k < |visits| && path in universe && owner != User
    requires Held(worlds[k], path, owner, original) && Current(worlds[k], path)
    requires Get(visits[k].file, path) == Get(worlds[k].file, path)
    requires EnvOf(visits[k].boot, owner).Blank? || Names(EnvOf(visits[k].boot, owner), path)
    requires owner == DefaultEnv ==> path !in EnvLeaves(visits[k].boot.setEnv)
    ensures Held(worlds[k + 1], path, owner, original) && Current(worlds[k + 1], path)
  {
    var mid := VisitPath(universe, visits, worlds, k, path);
    StillCurrent(universe, visits, worlds, k, path);
    KeepsHolding(Found(visits, worlds, k), visits[k].boot, mid, worlds[k + 1], path, owner, original);
  }

  lemma {:induction false} HeldWhileThere(universe: set<Path>, visits: seq<Visit>, worlds: seq<World>, path: Path, owner: Source,
                                          enter: nat, leave: nat, k: nat, original: Option<Node>)
    requires Run(universe, visits, worlds) && enter < k <= leave < |visits| && path in universe && owner != User
    requires Held(worlds[enter + 1], path, owner, original) && Current(worlds[enter + 1], path)
    requires Stays(visits, worlds, path, owner, enter, leave)
    ensures Held(worlds[k], path, owner, original) && Current(worlds[k], path)
    decreases k
  {
    if k == enter + 1 {
    } else {
      HeldWhileThere(universe, visits, worlds, path, owner, enter, leave, k - 1, original);
      StillHeld(universe, visits, worlds, path, owner, k - 1, original);
    }
  }

  lemma RestoredAtLast(universe: set<Path>, visits: seq<Visit>, worlds: seq<World>, path: Path, owner: Source, enter: nat, leave: nat,
                       original: Option<Node>)
    requires Run(universe, visits, worlds) && enter < leave < |visits| && path in universe && owner != User
    requires Held(worlds[enter + 1], path, owner, original) && Current(worlds[enter + 1], path)
    requires Stays(visits, worlds, path, owner, enter, leave) && LetsGo(EnvOf(visits[leave].boot, owner), path)
    ensures At(worlds[leave + 1], path) == PathState(original, None, None)
  {
    HeldWhileThere(universe, visits, worlds, path, owner, enter, leave, leave, original);
    StillCurrent(universe, visits, worlds, leave, path);
    RunBootable(universe, visits, worlds, leave);
    assert Traced(worlds[leave].tracking, path);
    var mid := VisitPath(universe, visits, worlds, leave, path);
    GivesBack(Found(visits, worlds, leave), visits[leave].boot, mid, worlds[leave + 1], path, owner, original);
  }

  /**
   A path without an owner that enters SET, and stays through any number of boots with changing values, is given back
   at the boot that drops it: the value that had been recorded for it before, or else the value that the file had when it
   entered, with null as absent, and whatever DEFAULT says in all that time.
   */
  lemma SetRestores(universe: set<Path>, visits: seq<Visit>, worlds: seq<World>, path: Path, enter: nat, leave: nat)
    requires Run(universe, visits, worlds) && enter < leave < |visits| && path in universe
    requires At(Found(visits, worlds, enter), path).source.None? && Names(visits[enter].boot.setEnv, path)
    requires Stays(visits, worlds, path, SetEnv, enter, leave) && LetsGo(visits[leave].boot.setEnv, path)
    ensures var found := At(Found(visits, worlds, enter), path);
            At(worlds[leave + 1], path)
            == PathState(if found.original.Some? then found.original else NullAsAbsent(Get(visits[enter].file, path)), None, None)
  {
    var mid := VisitPath(universe, visits, worlds, enter, path);
    SetTakes(Found(visits, worlds, enter), visits[enter].boot, mid, worlds[enter + 1], path);
    TakenIsCurrent(universe, visits, worlds, enter, path);
    RestoredAtLast(universe, visits, worlds, path, SetEnv, enter, leave, Remembered(At(Found(visits, worlds, enter), path)));
  }

  /**
   DEFAULT gives back what it has overridden. A path without an owner that it takes when it installs, or where there was
   no value, and keeps through any number of boots, ends as it was before at the boot in which the variable has gone or
   no longer names it.
   */
  lemma DefaultRestores(universe: set<Path>, visits: seq<Visit>, worlds: seq<World>, path: Path, enter: nat, leave: nat)
    requires Run(universe, visits, worlds) && enter < leave < |visits| && path in universe
    requires At(Found(visits, worlds, enter), path).source.None? && Names(visits[enter].boot.defaultEnv, path)
    requires visits[enter].boot.isInstall || Absent(Get(visits[enter].file, path))
    requires Stays(visits, worlds, path, DefaultEnv, enter, leave) && LetsGo(visits[leave].boot.defaultEnv, path)
    ensures var found := At(Found(visits, worlds, enter), path);
            At(worlds[leave + 1], path)
            == PathState(if found.original.Some? then found.original else NullAsAbsent(Get(visits[enter].file, path)), None, None)
  {
    var mid := VisitPath(universe, visits, worlds, enter, path);
    DefaultTakes(Found(visits, worlds, enter), visits[enter].boot, mid, worlds[enter + 1], path);
    TakenIsCurrent(universe, visits, worlds, enter, path);
    RestoredAtLast(universe, visits, worlds, path, DefaultEnv, enter, leave, Remembered(At(Found(visits, worlds, enter), path)));
  }

  /**
   What was recorded once is not forgotten: where a runtime boot of DEFAULT finds a value, it records it, and after an
   edit that is what SET puts back.
   */
  lemma DefaultRecords(w: World, boot: Boot, mid: World, w': World, path: Path)
    requires PathBoot(w, boot, mid, w', path) && !boot.isInstall && At(w, path).source.None?
    requires Names(boot.defaultEnv, path) && path !in EnvLeaves(boot.setEnv) && !Absent(At(w, path).value)
    ensures At(w', path) == PathState(At(w, path).value, None, Remembered(At(w, path)))
  {
    NoDriftAt(w, boot.isInstall, path);
  }

  // ----- what the user puts in the place of an environment's value

  lemma EditMarked(w: World, path: Path)
    requires HasDrifted(w, path)
    ensures At(Drifted(w, false), path) == At(w, path).(source := Some(User))
  {
  }

  lemma EditKept(w: World, boot: Boot, mid: World, w': World, path: Path)
    requires PathBoot(w, boot, mid, w', path) && HasDrifted(w, path) && !boot.isInstall && path !in EnvLeaves(boot.setEnv)
    ensures At(w', path) == At(w, path).(source := Some(User))
  {
    EditMarked(w, path);
  }

  /**
   An edit of a path that an environment owns makes it the user's at the next runtime boot, and neither DEFAULT nor the
   end of the environment that owned it takes the user's value away, while SET does not name the path.
   */
  lemma EditSurvives(universe: set<Path>, visits: seq<Visit>, worlds: seq<World>, path: Path, edit: nat, i: nat)
    requires Run(universe, visits, worlds) && edit <= i < |visits| && path in universe
    requires At(worlds[edit], path).source == Some(DefaultEnv) || At(worlds[edit], path).source == Some(SetEnv)
    requires Current(worlds[edit], path) && Get(visits[edit].file, path) != Get(worlds[edit].file, path)
    requires !visits[edit].boot.isInstall && forall k :: edit <= k <= i ==> path !in EnvLeaves(visits[k].boot.setEnv)
    ensures Get(worlds[i + 1].file, path) == Get(visits[i].file, path) && At(worlds[i + 1], path).source == Some(User)
  {
    RunBootable(universe, visits, worlds, edit);
    assert Traced(worlds[edit].tracking, path);
    var mid := VisitPath(universe, visits, worlds, edit, path);
    EditKept(Found(visits, worlds, edit), visits[edit].boot, mid, worlds[edit + 1], path);
    if i > edit {
      UserPathOverRuns(universe, visits, worlds, path, edit + 1, i);
    }
  }
}
