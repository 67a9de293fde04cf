/**
 Configuration objects as trees, with the path operations of config/harperConfigEnvVars.ts.
 A path is the list of keys of a dotted path; keys are non-empty and free of dots.
 */
module ConfigTree {
  import opened Wrappers

  /** A value that is not a plain object; arrays are kept as their JSON text. */
  datatype Scalar = Null | Bool(b: bool) | Num(n: int) | Text(text: string) | Arr(json: string)

  datatype Node = Obj(fields: map<string, Node>) | Leaf(value: Scalar)

  type Path = seq<string>

  const EMPTY: Node := Obj(map[])

  function Get(node: Node, path: Path): Option<Node> {
    if path == [] then Some(node)
    else if node.Obj? && path[0] in node.fields then Get(node.fields[path[0]], path[1..])
    else None
  }

  method GetNestedValue(obj: Node, keys: Path) returns (value: Option<Node>)
    ensures value == Get(obj, keys)
  {
    var current := obj;
    for i := 0 to |keys|
      invariant Get(current, keys[i..]) == Get(obj, keys)
    {
      assert keys[i..][0] == keys[i] && keys[i..][1..] == keys[i + 1..];
      if !current.Obj? || keys[i] !in current.fields {
        return None;
      }
      current := current.fields[keys[i]];
    }
    assert keys[|keys|..] == [];
    return Some(current);
  }

  function Child(node: Node, key: string): Node {
    if node.Obj? && key in node.fields then node.fields[key] else EMPTY
  }

  /** `setNestedValue`: whatever is in the way and not an object is replaced by an object. */
  function SetAt(node: Node, path: Path, value: Node): Node
    requires path != []
    decreases |path|
  {
    var fields := if node.Obj? then node.fields else map[];
    Obj(fields[path[0] := if |path| == 1 then value else SetAt(Child(node, path[0]), path[1..], value)])
  }

  /** `deleteNestedValue`: nothing happens when the path does not exist. */
  function DeleteAt(node: Node, path: Path): Node
    requires path != []
    decreases |path|
  {
    if !node.Obj? || path[0] !in node.fields then node
    else if |path| == 1 then Obj(node.fields - {path[0]})
    else Obj(node.fields[path[0] := DeleteAt(node.fields[path[0]], path[1..])])
  }

  /** Neither path lies above the other. */
  predicate Apart(p: Path, q: Path) {
    !(p <= q) && !(q <= p)
  }

  lemma ApartTails(p: Path, q: Path)
    requires Apart(p, q)
    ensures p != [] && q != []
    ensures p[0] == q[0] ==> Apart(p[1..], q[1..])
  {
    if p[0] == q[0] {
      assert p == [p[0]] + p[1..] && q == [q[0]] + q[1..];
    }
  }

  lemma {:induction false} GetAfterSet(node: Node, path: Path, value: Node)
    requires path != []
    ensures Get(SetAt(node, path, value), path) == Some(value)
    decreases |path|
  {
    if |path| <= 1 {
    } else {
      GetAfterSet(Child(node, path[0]), path[1..], value);
    }
  }

  lemma {:induction false} SetFrame(node: Node, path: Path, value: Node, other: Path)
    requires Apart(path, other)
    ensures path != [] && Get(SetAt(node, path, value), other) == Get(node, other)
    decreases |path|
  {
    ApartTails(path, other);
    if path[0] != other[0] {
    } else {
      SetFrame(Child(node, path[0]), path[1..], value, other[1..]);
    }
  }

  lemma {:induction false} SetSame(node: Node, path: Path, value: Node)
    requires path != [] && Get(node, path) == Some(value)
    ensures SetAt(node, path, value) == node
    decreases |path|
  {
    if |path| == 1 {
    } else {
      SetSame(Child(node, path[0]), path[1..], value);
    }
    assert node.fields[path[0] := node.fields[path[0]]] == node.fields;
  }

  lemma {:induction false} GetAfterDelete(node: Node, path: Path)
    requires path != []
    ensures Get(DeleteAt(node, path), path) == None
    decreases |path|
  {
    if node.Leaf? || path[0] !in node.fields || |path| == 1 {
    } else {
      GetAfterDelete(node.fields[path[0]], path[1..]);
    }
  }

  /** Deleting a key leaves the objects above it as objects, even when they become empty. */
  lemma {:induction false} DeleteKeepsAbove(node: Node, path: Path, above: nat)
    requires above < |path|
    ensures var before, after := Get(node, path[..above]), Get(DeleteAt(node, path), path[..above]);
            && (before.Some? <==> after.Some?)
            && (before.Some? && before.value.Obj? ==>
                  after.value.Obj? && after.value.fields.Keys == before.value.fields.Keys - if above == |path| - 1 then {path[above]} else {})
            && (before.Some? && before.value.Leaf? ==> after == before)
    decreases |path|
  {
    if node.Leaf? || path[0] !in node.fields || above == 0 {
      assert above == 0 ==> path[..above] == [];
      if above > 0 {
        assert path[..above][0] == path[0];
      }
    } else {
      assert path[1..][..above - 1] == path[..above][1..] && path[..above][0] == path[0];
      DeleteKeepsAbove(node.fields[path[0]], path[1..], above - 1);
    }
  }

  lemma EmptyHasNothing(path: Path)
    ensures Get(EMPTY, path).Some? ==> path == []
  {
  }

  /** Setting a value makes objects of everything above it, and adds no key but those of the path. */
  lemma {:induction false} SetMakesAbove(node: Node, path: Path, value: Node, above: nat)
    requires above < |path|
    ensures var before, after := Get(node, path[..above]), Get(SetAt(node, path, value), path[..above]);
            && after.Some? && after.value.Obj?
            && after.value.fields.Keys == (if before.Some? && before.value.Obj? then before.value.fields.Keys else {}) + {path[above]}
    decreases |path|
  {
    if above == 0 {
      assert path[..above] == [];
    } else {
      assert path[1..][..above - 1] == path[..above][1..] && path[..above][0] == path[0];
      SetMakesAbove(Child(node, path[0]), path[1..], value, above - 1);
      if node.Leaf? || path[0] !in node.fields {
        EmptyHasNothing(path[1..][..above - 1]);
      }
    }
  }

  lemma {:induction false} DeleteFrame(node: Node, path: Path, other: Path)
    requires Apart(path, other)
    ensures path != [] && Get(DeleteAt(node, path), other) == Get(node, other)
    decreases |path|
  {
    ApartTails(path, other);
    if node.Leaf? || path[0] !in node.fields || path[0] != other[0] {
    } else {
      DeleteFrame(node.fields[path[0]], path[1..], other[1..]);
    }
  }

  lemma {:induction false} DeleteSame(node: Node, path: Path)
    requires path != [] && Get(node, path) == None
    ensures DeleteAt(node, path) == node
    decreases |path|
  {
    if node.Leaf? || path[0] !in node.fields || |path| == 1 {
    } else {
      DeleteSame(node.fields[path[0]], path[1..]);
      assert node.fields[path[0] := node.fields[path[0]]] == node.fields;
    }
  }

  // ----- flattening

  /** The paths that `flattenObject` lists. */
  function Leaves(node: Node): set<Path> {
    match node
    case Leaf(_) => {[]}
    case Obj(fields) => set key, path | key in fields && path in Leaves(fields[key]) :: [key] + path
  }

  lemma {:induction false} LeavesExactly(node: Node, path: Path)
    ensures path in Leaves(node) <==> Get(node, path).Some? && Get(node, path).value.Leaf?
  {
    match node
    case Leaf(_) =>
    case Obj(fields) =>
      if path != [] {
        assert path == [path[0]] + path[1..];
        if path[0] in fields {
          LeavesExactly(fields[path[0]], path[1..]);
        }
        if path in Leaves(node) {
          var key, rest :| key in fields && rest in Leaves(fields[key]) && path == [key] + rest;
          assert rest == path[1..];
        }
      }
  }

  // ----- the tree that holds exactly the given values

  function Heads(values: map<Path, Node>): set<string> {
    set path | path in values && path != [] :: path[0]
  }

  function Below(values: map<Path, Node>, key: string): map<Path, Node> {
    map rest | rest in (set path | path in values && path != [] && path[0] == key :: path[1..]) && [key] + rest in values :: values[[key] + rest]
  }

  lemma BelowExactly(values: map<Path, Node>, key: string, rest: Path)
    ensures rest in Below(values, key) <==> [key] + rest in values
    ensures [key] + rest in values ==> Below(values, key)[rest] == values[[key] + rest] && key in Heads(values)
  {
    if [key] + rest in values {
      assert ([key] + rest)[1..] == rest;
    }
  }

  /** `node` has the given values at their paths and nothing else, not even empty objects. */
  predicate Holds(node: Node, values: map<Path, Node>) {
    node.Obj? && node.fields.Keys == Heads(values) &&
    forall key :: key in node.fields ==>
      if [key] in values then node.fields[key] == values[[key]] else Holds(node.fields[key], Below(values, key))
  }

  lemma {:induction false} HoldsUnique(a: Node, b: Node, values: map<Path, Node>)
    requires Holds(a, values) && Holds(b, values)
    ensures a == b
  {
    forall key | key in a.fields
      ensures a.fields[key] == b.fields[key]
    {
      if [key] !in values {
        HoldsUnique(a.fields[key], b.fields[key], Below(values, key));
      }
    }
  }

  ghost predicate ApartFromAll(paths: set<Path>, path: Path) {
    forall t :: t in paths ==> Apart(t, path)
  }

  ghost predicate PrefixFree(paths: set<Path>) {
    [] !in paths && forall p, q {:trigger Apart(p, q)} :: p in paths && q in paths && p != q ==> Apart(p, q)
  }

  lemma BelowPrefixFree(values: map<Path, Node>, key: string)
    requires PrefixFree(values.Keys) && [key] !in values
    ensures PrefixFree(Below(values, key).Keys)
  {
    BelowExactly(values, key, []);
    assert [key] + [] == [key];
    assert [] !in Below(values, key);
    forall p, q | p in Below(values, key) && q in Below(values, key) && p != q
      ensures Apart(p, q)
    {
      BelowExactly(values, key, p);
      BelowExactly(values, key, q);
      assert ([key] + p)[1..] == p && ([key] + q)[1..] == q;
      assert Apart([key] + p, [key] + q);
    }
  }

  lemma NotAlone(values: map<Path, Node>, path: Path)
    requires path != [] && path[0] in Heads(values) && [path[0]] !in values
    requires path in values || forall q :: q in values ==> Apart(path, q)
    ensures path[1..] != []
  {
    assert path == [path[0]] + path[1..];
    assert |path| == 1 ==> path == [path[0]];
    forall q | q in values && q != [] && q[0] == path[0]
      ensures |path| == 1 ==> path <= q && (path in values || Apart(path, q))
    {
    }
  }

  lemma StillApart(values: map<Path, Node>, key: string, rest: Path)
    requires [key] + rest in values || forall q :: q in values ==> Apart([key] + rest, q)
    ensures rest in Below(values, key) || forall q :: q in Below(values, key) ==> Apart(rest, q)
  {
    BelowExactly(values, key, rest);
    forall q | q in Below(values, key) && [key] + rest !in values
      ensures Apart(rest, q)
    {
      BelowExactly(values, key, q);
      assert Apart([key] + rest, [key] + q);
      assert rest <= q ==> [key] + rest <= [key] + q;
      assert q <= rest ==> [key] + q <= [key] + rest;
    }
  }

  /** Read back: each value at its path, nothing at a path apart from all of them. */
  lemma {:induction false} HoldsGet(node: Node, values: map<Path, Node>, path: Path)
    requires Holds(node, values) && PrefixFree(values.Keys) && path != []
    requires path in values || forall q :: q in values ==> Apart(path, q)
    ensures Get(node, path) == Lookup(values, path)
    decreases |path|
  {
    var key, rest := path[0], path[1..];
    assert path == [key] + rest;
    BelowExactly(values, key, rest);
    if key in node.fields {
      if [key] in values {
        assert [key] <= path && !Apart([key], path) && !Apart(path, [key]);
      } else {
        NotAlone(values, path);
        BelowPrefixFree(values, key);
        StillApart(values, key, rest);
        HoldsGet(node.fields[key], Below(values, key), rest);
      }
    }
  }

  lemma BelowAfterAdding(values: map<Path, Node>, path: Path, value: Node, key: string)
    requires path != []
    ensures Below(values[path := value], key) == if key == path[0] then Below(values, key)[path[1..] := value] else Below(values, key)
  {
    var grown := values[path := value];
    var expected := if key == path[0] then Below(values, key)[path[1..] := value] else Below(values, key);
    assert path == [path[0]] + path[1..];
    forall rest
      ensures rest in Below(grown, key) <==> rest in expected
      ensures rest in expected ==> Below(grown, key)[rest] == expected[rest]
    {
      BelowExactly(grown, key, rest);
      BelowExactly(values, key, rest);
      assert ([key] + rest)[1..] == rest && ([key] + rest)[0] == key;
    }
  }

  lemma HoldsWithChild(node: Node, values: map<Path, Node>, path: Path, value: Node, child: Node)
    requires Holds(node, values) && path != [] && [path[0]] !in values
    requires if |path| == 1 then child == value else Holds(child, Below(values[path := value], path[0]))
    ensures Holds(Obj(node.fields[path[0] := child]), values[path := value])
  {
    var key, grown := path[0], values[path := value];
    assert path == [key] + path[1..];
    assert Heads(grown) == Heads(values) + {key};
    forall k | k in node.fields && k != key
      ensures [k] in grown <==> [k] in values
      ensures [k] !in grown ==> Holds(node.fields[k], Below(grown, k))
    {
      assert [k][0] == k;
      BelowAfterAdding(values, path, value, k);
    }
    assert |path| == 1 ==> path == [key];
  }

  lemma HoldsChild(node: Node, values: map<Path, Node>, key: string)
    requires Holds(node, values) && [key] !in values
    ensures Holds(Child(node, key), Below(values, key))
  {
    if key !in Heads(values) {
      forall rest
        ensures rest !in Below(values, key)
      {
        BelowExactly(values, key, rest);
      }
      assert Below(values, key) == map[];
    }
  }

  lemma NotBelow(values: map<Path, Node>, path: Path)
    requires path != [] && forall q :: q in values ==> Apart(path, q)
    ensures path[1..] !in Below(values, path[0])
  {
    BelowExactly(values, path[0], path[1..]);
    assert path == [path[0]] + path[1..];
  }

  /** Setting one more value extends exactly what the tree holds. */
  lemma {:induction false} HoldsAfterSet(node: Node, values: map<Path, Node>, path: Path, value: Node)
    requires Holds(node, values) && path != []
    requires forall q :: q in values ==> Apart(path, q)
    ensures Holds(SetAt(node, path, value), values[path := value])
    decreases |path|
  {
    var key, rest := path[0], path[1..];
    assert path == [key] + rest;
    assert [key] in values ==> [key] <= path;
    if |path| == 1 {
      HoldsWithChild(node, values, path, value, value);
    } else {
      HoldsChild(node, values, key);
      StillApart(values, key, rest);
      NotBelow(values, path);
      HoldsAfterSet(Child(node, key), Below(values, key), rest, value);
      BelowAfterAdding(values, path, value, key);
      HoldsWithChild(node, values, path, value, SetAt(Child(node, key), rest, value));
    }
  }
}
