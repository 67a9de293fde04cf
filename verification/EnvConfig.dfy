/**
 What one boot does to the configuration file and its tracking state, path by path
 (config/harperConfigEnvVars.ts). The leaf paths of all environments come from one prefix-free
 universe; the configuration hash is injective, so a snapshot's hash is the parsed configuration.
 */
module EnvConfig {
  import opened Wrappers
  import opened ConfigTree

  datatype Source = DefaultEnv | SetEnv | User

  /** An environment variable: missing or empty, only white space, not a JSON object, or parsed. */
  datatype EnvVar = Unset | Blank | Malformed | Config(config: Node)

  datatype Snapshot = Snapshot(hash: Node, config: Node)

  datatype Tracking = Tracking(sources: map<Path, Source>, originals: map<Path, Node>, snapshots: map<Source, Snapshot>)

  /** The configuration file and the saved state. */
  datatype World = World(file: Node, tracking: Tracking)

  const UNTRACKED := Tracking(map[], map[], map[])

  // ----- one path

  datatype PathState = PathState(value: Option<Node>, source: Option<Source>, original: Option<Node>)

  function At(w: World, path: Path): PathState {
    PathState(Get(w.file, path), Lookup(w.tracking.sources, path), Lookup(w.tracking.originals, path))
  }

  /** Neither undefined nor null. */
  predicate HasValue(value: Option<Node>) {
    value.Some? && value != Some(Leaf(Null))
  }

  /** The value before the override is kept, unless one is kept already. */
  function Kept(state: PathState): Option<Node> {
    if state.source.None? && HasValue(state.value) && state.original.None? then state.value else state.original
  }

  /** `applyConfigLayer` with originals stored, at a path that the environment names. */
  function Overlaid(state: PathState, value: Node, me: Source, respected: set<Source>): PathState {
    if state.source.Some? && state.source.value in respected then state
    else PathState(Some(value), Some(me), Kept(state))
  }

  /** The runtime rule for HARPER_DEFAULT_CONFIG, at a path that it names. */
  function Defaulted(state: PathState, value: Node): PathState {
    if state.source.Some? && state.source != Some(DefaultEnv) then state
    else if state.source.None? && HasValue(state.value) then state.(original := Kept(state))
    else PathState(Some(value), Some(DefaultEnv), state.original)
  }

  /** A path that its environment no longer names: back to the original value, or away. */
  function Dropped(state: PathState, me: Source): PathState {
    if state.source == Some(me) then PathState(state.original, None, None) else state
  }

  function LeafOf(config: Node, path: Path): Node {
    if Get(config, path).Some? then Get(config, path).value else EMPTY
  }

  function AppliedAt(w: World, path: Path, me: Source, config: Node, isInstall: bool): PathState {
    if path !in Leaves(config) then At(w, path)
    else if me == SetEnv then Overlaid(At(w, path), LeafOf(config, path), me, {})
    else if isInstall then Overlaid(At(w, path), LeafOf(config, path), me, {SetEnv, User})
    else Defaulted(At(w, path), LeafOf(config, path))
  }

  /** The path was in the previous snapshot, the variable has changed, and it names the path no longer. */
  predicate Outdated(w: World, path: Path, me: Source, config: Node) {
    && me in w.tracking.snapshots && w.tracking.snapshots[me].hash != config
    && path in Leaves(w.tracking.snapshots[me].config) && path !in Leaves(config)
  }

  /** What processing one environment variable does to one path. */
  function Layered(w: World, path: Path, me: Source, env: EnvVar, isInstall: bool): PathState {
    match env
    case Unset => if me in w.tracking.snapshots then Dropped(At(w, path), me) else At(w, path)
    case Config(config) =>
      var applied := AppliedAt(w, path, me, config, isInstall);
      if Outdated(w, path, me, config) then Dropped(applied, me) else applied
    case _ => At(w, path)
  }

  // ----- drift

  /** The file no longer has the value that an environment variable put there. */
  predicate HasDrifted(w: World, path: Path) {
    && path in w.tracking.sources && w.tracking.sources[path] != User
    && w.tracking.sources[path] in w.tracking.snapshots
    && Get(w.file, path) != Get(w.tracking.snapshots[w.tracking.sources[path]].config, path)
  }

  function Drifted(w: World, isInstall: bool): World {
    if isInstall then w else
      w.(tracking := w.tracking.(sources :=
        map path | path in w.tracking.sources :: if HasDrifted(w, path) then User else w.tracking.sources[path]))
  }

  // ----- whole worlds

  ghost predicate WellFormed(universe: set<Path>, w: World) {
    && PrefixFree(universe) && w.file.Obj?
    && w.tracking.sources.Keys <= universe && w.tracking.originals.Keys <= universe
    && (forall s :: s in w.tracking.snapshots ==> s != User)
  }

  predicate Fits(universe: set<Path>, env: EnvVar) {
    env.Config? ==> env.config.Obj? && Leaves(env.config) <= universe
  }

  /** The values that a source owns in the file. */
  function Owned(w: World, me: Source): map<Path, Node> {
    map path | path in w.tracking.sources && w.tracking.sources[path] == me && Get(w.file, path).Some? :: Get(w.file, path).value
  }

  function OwnedPaths(w: World, me: Source): set<Path> {
    set path | path in w.tracking.sources && w.tracking.sources[path] == me
  }

  function EnvLeaves(env: EnvVar): set<Path> {
    if env.Config? then Leaves(env.config) else {}
  }

  /** Nothing apart from the given paths has changed. */
  ghost predicate Framed(before: Node, after: Node, touched: set<Path>) {
    forall path {:trigger ApartFromAll(touched, path)} :: ApartFromAll(touched, path) ==> Get(after, path) == Get(before, path)
  }

  ghost predicate SnapshotTaken(me: Source, env: EnvVar, w: World, w': World) {
    var before, after := w.tracking.snapshots, w'.tracking.snapshots;
    match env
    case Unset => after == before - {me}
    case Config(config) => me in after && after == before[me := Snapshot(config, after[me].config)] && Holds(after[me].config, Owned(w', me))
    case _ => after == before
  }

  ghost predicate SameValues(universe: set<Path>, w: World, w': World) {
    forall path {:trigger At(w', path)} :: path in universe ==> At(w', path).value == At(w, path).value
  }

  /** Processing one environment variable, or cleaning up after it has gone. */
  ghost predicate LayerStep(universe: set<Path>, me: Source, env: EnvVar, isInstall: bool, w: World, w': World) {
    && WellFormed(universe, w')
    && (forall path {:trigger At(w', path)} :: path in universe ==> At(w', path) == Layered(w, path, me, env, isInstall))
    && SnapshotTaken(me, env, w, w')
    && Framed(w.file, w'.file, EnvLeaves(env) + OwnedPaths(w, me))
    && (SameValues(universe, w, w') ==> w'.file == w.file)
  }

  datatype Boot = Boot(defaultEnv: EnvVar, setEnv: EnvVar, isInstall: bool)

  ghost predicate BootThrough(universe: set<Path>, w: World, boot: Boot, mid: World, w': World) {
    && LayerStep(universe, DefaultEnv, boot.defaultEnv, boot.isInstall, Drifted(w, boot.isInstall), mid)
    && LayerStep(universe, SetEnv, boot.setEnv, boot.isInstall, mid, w')
  }

  /** A whole boot: drift detection, then HARPER_DEFAULT_CONFIG, then HARPER_SET_CONFIG. */
  ghost predicate BootStep(universe: set<Path>, w: World, boot: Boot, w': World) {
    exists mid :: BootThrough(universe, w, boot, mid, w')
  }
}
