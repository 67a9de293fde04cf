/**
 What it means to merge a new configuration into a current one (components/OptionsWatcher.ts): the merged value,
 the paths that are written, and the changes that describe the writes.
 */
module ConfigMerge {
  import opened Wrappers

  type Path = seq<string>

  /** A configuration value. Arrays are objects that know that they are arrays; `Undefined` can be a field's value. */
  datatype Value =
    | Undefined | Null | Bool(b: bool) | Num(n: int) | Text(text: string)
    | Obj(isArray: bool, fields: map<string, Value>)

  datatype Change = Change(keys: Path, value: Value)

  predicate IsConfig(v: Value) {
    v.Obj? && !v.isArray
  }

  function Field(v: Value, key: string): Value {
    if v.Obj? && key in v.fields then v.fields[key] else Undefined
  }

  function WithField(v: Value, key: string, x: Value): Value
    requires v.Obj?
  {
    v.(fields := v.fields[key := x])
  }

  // ----- paths

  function Get(v: Value, keys: Path): Value
    decreases |keys|
  {
    if keys == [] then v else Get(Field(v, keys[0]), keys[1..])
  }

  lemma {:induction false} GetOfUndefined(keys: Path)
    ensures Get(Undefined, keys) == Undefined
  {
    if keys == [] {
    } else {
      GetOfUndefined(keys[1..]);
    }
  }

  lemma {:induction false} PathThroughObject(v: Value, keys: Path)
    requires keys != [] && Get(v, keys) != Undefined
    ensures v.Obj? && keys[0] in v.fields
  {
    GetOfUndefined(keys[1..]);
  }

  /** The value with another one in place of the object that its path leads to. */
  function Replace(v: Value, keys: Path, x: Value): Value
    requires Get(v, keys).Obj?
    decreases |keys|
  {
    if keys == [] then x
    else
      PathThroughObject(v, keys);
      WithField(v, keys[0], Replace(v.fields[keys[0]], keys[1..], x))
  }

  lemma {:induction false} GetAppend(v: Value, keys: Path, key: string)
    ensures Get(v, keys + [key]) == Field(Get(v, keys), key)
    decreases |keys|
  {
    if keys == [] {
      assert Get(Field(v, key), (keys + [key])[1..]) == Field(v, key);
    } else {
      assert (keys + [key])[1..] == keys[1..] + [key];
      GetAppend(Field(v, keys[0]), keys[1..], key);
    }
  }

  lemma {:induction false} GetReplaced(v: Value, keys: Path, x: Value)
    requires Get(v, keys).Obj?
    ensures Get(Replace(v, keys, x), keys) == x
    decreases |keys|
  {
    if keys == [] {
    } else {
      PathThroughObject(v, keys);
      GetReplaced(v.fields[keys[0]], keys[1..], x);
    }
  }

  lemma {:induction false} ReplaceSame(v: Value, keys: Path)
    requires Get(v, keys).Obj?
    ensures Replace(v, keys, Get(v, keys)) == v
    decreases |keys|
  {
    if keys == [] {
    } else {
      PathThroughObject(v, keys);
      ReplaceSame(v.fields[keys[0]], keys[1..]);
      assert v.fields[keys[0] := v.fields[keys[0]]] == v.fields;
    }
  }

  lemma {:induction false} ReplaceTwice(v: Value, keys: Path, x: Value, y: Value)
    requires Get(v, keys).Obj? && x.Obj?
    ensures Get(Replace(v, keys, x), keys) == x
    ensures Replace(Replace(v, keys, x), keys, y) == Replace(v, keys, y)
    decreases |keys|
  {
    GetReplaced(v, keys, x);
    if keys == [] {
    } else {
      PathThroughObject(v, keys);
      ReplaceTwice(v.fields[keys[0]], keys[1..], x, y);
      var k := keys[0];
      assert v.fields[k := Replace(v.fields[k], keys[1..], x)][k := Replace(v.fields[k], keys[1..], y)]
          == v.fields[k := Replace(v.fields[k], keys[1..], y)];
    }
  }

  lemma {:induction false} ReplaceBelow(v: Value, keys: Path, key: string, x: Value)
    requires Get(v, keys).Obj? && Field(Get(v, keys), key).Obj?
    ensures Get(v, keys + [key]).Obj?
    ensures Replace(v, keys + [key], x) == Replace(v, keys, WithField(Get(v, keys), key, x))
    decreases |keys|
  {
    GetAppend(v, keys, key);
    if keys == [] {
      assert (keys + [key])[1..] == [];
      assert Replace(v, keys + [key], x) == WithField(v, key, Replace(v.fields[key], [], x));
    } else {
      PathThroughObject(v, keys);
      assert (keys + [key])[1..] == keys[1..] + [key];
      ReplaceBelow(v.fields[keys[0]], keys[1..], key, x);
    }
  }

  // ----- one write

  function Parent(keys: Path): Path {
    if keys == [] then [] else keys[..|keys| - 1]
  }

  /** The last key; for the empty path JavaScript's `keys[-1]` is undefined, which names the key "undefined". */
  function Last(keys: Path): string {
    if keys == [] then "undefined" else keys[|keys| - 1]
  }

  function Apply(v: Value, change: Change): Value {
    var parent := Get(v, Parent(change.keys));
    if parent.Obj? then Replace(v, Parent(change.keys), WithField(parent, Last(change.keys), change.value)) else v
  }

  function Fold(v: Value, changes: seq<Change>): Value {
    if changes == [] then v
    else Apply(Fold(v, changes[..|changes| - 1]), changes[|changes| - 1])
  }

  lemma FoldOne(v: Value, changes: seq<Change>, change: Change)
    ensures Fold(v, changes + [change]) == Apply(Fold(v, changes), change)
  {
    assert (changes + [change])[..|changes|] == changes;
  }

  function Below(key: string, changes: seq<Change>): (r: seq<Change>)
    ensures |r| == |changes|
  {
    seq(|changes|, i requires 0 <= i < |changes| => Change([key] + changes[i].keys, changes[i].value))
  }

  lemma ApplyBelow(v: Value, key: string, change: Change)
    requires v.Obj? && change.keys != [] && Field(v, key).Obj?
    ensures Apply(v, Change([key] + change.keys, change.value)) == WithField(v, key, Apply(Field(v, key), change))
  {
    var keys := [key] + change.keys;
    assert Parent(keys) == [key] + Parent(change.keys) && Parent(keys)[1..] == Parent(change.keys);
    assert Get(v, Parent(keys)) == Get(Field(v, key), Parent(change.keys));
    assert v.fields[key := v.fields[key]] == v.fields;
  }

  lemma FieldTwice(v: Value, key: string, x: Value, y: Value)
    requires v.Obj?
    ensures WithField(WithField(v, key, x), key, y) == WithField(v, key, y)
  {
    assert v.fields[key := x][key := y] == v.fields[key := y];
  }

  lemma ApplyKeepsObject(v: Value, change: Change)
    requires v.Obj?
    ensures Apply(v, change).Obj?
  {
  }

  lemma {:induction false} FoldBelow(v: Value, key: string, changes: seq<Change>)
    requires v.Obj? && Field(v, key).Obj? && forall i :: 0 <= i < |changes| ==> changes[i].keys != []
    ensures Fold(Field(v, key), changes).Obj?
    ensures Fold(v, Below(key, changes)) == WithField(v, key, Fold(Field(v, key), changes))
  {
    if changes == [] {
      assert v.fields[key := v.fields[key]] == v.fields;
    } else {
      var n := |changes| - 1;
      FoldBelow(v, key, changes[..n]);
      assert Below(key, changes)[..n] == Below(key, changes[..n]);
      ApplyBelow(Fold(v, Below(key, changes[..n])), key, changes[n]);
      var x := Fold(Field(v, key), changes[..n]);
      ApplyKeepsObject(x, changes[n]);
      FieldTwice(v, key, x, Apply(x, changes[n]));
    }
  }

  lemma {:induction false} FoldAppend(v: Value, a: seq<Change>, b: seq<Change>)
    ensures Fold(v, a + b) == Fold(Fold(v, a), b)
  {
    if b == [] {
      assert a + b == a;
    } else {
      var n := |b| - 1;
      FoldAppend(v, a, b[..n]);
      FoldOne(v, a + b[..n], b[n]);
      assert a + b == (a + b[..n]) + [b[n]];
    }
  }

  // ----- what a merge gives

  /** The current object after the keys in `done` have been merged. */
  function Partly(current: Value, replacement: Value, done: set<string>): Value
    requires IsConfig(current) && IsConfig(replacement)
    decreases replacement, 1
  {
    Obj(false, map key | key in current.fields.Keys + replacement.fields.Keys &&
                         (key in current.fields || (key in done && Field(replacement, key) != Undefined)) ::
      if key in done then MergedField(current, replacement, key) else Field(current, key))
  }

  function Merged(current: Value, replacement: Value): (r: Value)
    requires IsConfig(current) && IsConfig(replacement)
    ensures IsConfig(r)
    decreases replacement, 2
  {
    Partly(current, replacement, current.fields.Keys + replacement.fields.Keys)
  }

  /** The field of the merged object: objects are merged, anything else is taken over, and dropped keys are undefined. */
  function MergedField(current: Value, replacement: Value, key: string): Value
    requires replacement.Obj?
    decreases replacement, 0
  {
    if key !in replacement.fields then Undefined
    else if IsConfig(Field(current, key)) && IsConfig(replacement.fields[key]) then
      Merged(Field(current, key), replacement.fields[key])
    else replacement.fields[key]
  }

  /** The paths at which a merge writes. */
  predicate Touched(current: Value, replacement: Value, keys: Path)
    decreases |keys|
  {
    && keys != [] && IsConfig(current) && IsConfig(replacement)
    && var c, r := Field(current, keys[0]), Field(replacement, keys[0]);
       if keys[0] !in replacement.fields then keys == [keys[0]] && keys[0] in current.fields
       else if IsConfig(c) && IsConfig(r) then Touched(c, r, keys[1..])
       else keys == [keys[0]] && c != r
  }

  // ----- the changes announced while the keys in `done` are merged

  ghost predicate Announced(changes: seq<Change>, keys: Path) {
    exists i :: 0 <= i < |changes| && changes[i].keys == keys
  }

  predicate IsTouch(current: Value, replacement: Value, change: Change) {
    Touched(current, replacement, change.keys) && change.value == Get(replacement, change.keys)
  }

  /** The changes are exactly the touched paths that start with a key in `keys`, each once and with its new value. */
  ghost predicate Describes(current: Value, replacement: Value, keys: set<string>, changes: seq<Change>) {
    && (forall i {:trigger IsTouch(current, replacement, changes[i])} :: 0 <= i < |changes| ==>
          IsTouch(current, replacement, changes[i]) && changes[i].keys[0] in keys)
    && (forall p {:trigger Announced(changes, p)} :: Touched(current, replacement, p) && p[0] in keys ==> Announced(changes, p))
    && (forall i, j :: 0 <= i < j < |changes| ==> changes[i].keys != changes[j].keys)
  }

  lemma DescribesBoth(current: Value, replacement: Value, ks: set<string>, a: seq<Change>, ls: set<string>, b: seq<Change>)
    requires ks !! ls && Describes(current, replacement, ks, a) && Describes(current, replacement, ls, b)
    ensures Describes(current, replacement, ks + ls, a + b)
  {
    forall i | 0 <= i < |a + b|
      ensures IsTouch(current, replacement, (a + b)[i]) && (a + b)[i].keys[0] in if i < |a| then ks else ls
    {
      assert if i < |a| then IsTouch(current, replacement, a[i]) else IsTouch(current, replacement, b[i - |a|]);
    }
    forall p | Touched(current, replacement, p) && p[0] in ks + ls
      ensures Announced(a + b, p)
    {
      if p[0] in ks {
        assert Announced(a, p);
        var i :| 0 <= i < |a| && a[i].keys == p;
        assert (a + b)[i].keys == p;
      } else {
        assert Announced(b, p);
        var i :| 0 <= i < |b| && b[i].keys == p;
        assert (a + b)[|a| + i].keys == p;
      }
    }
    forall i, j | 0 <= i < j < |a + b|
      ensures (a + b)[i].keys != (a + b)[j].keys
    {
      assert IsTouch(current, replacement, (a + b)[i]) && IsTouch(current, replacement, (a + b)[j]);
    }
  }

  lemma DescribesNone(current: Value, replacement: Value, key: string)
    requires forall p :: Touched(current, replacement, p) ==> p[0] != key
    ensures Describes(current, replacement, {key}, [])
  {
  }

  lemma DescribesOne(current: Value, replacement: Value, key: string)
    requires IsConfig(current) && IsConfig(replacement) && Touched(current, replacement, [key])
    requires !(IsConfig(Field(current, key)) && IsConfig(Field(replacement, key)))
    ensures Describes(current, replacement, {key}, [Change([key], Field(replacement, key))])
  {
    var changes := [Change([key], Field(replacement, key))];
    assert Get(replacement, [key]) == Get(Field(replacement, key), [key][1..]) == Field(replacement, key);
    forall p | Touched(current, replacement, p) && p[0] in {key}
      ensures Announced(changes, p)
    {
      assert p == [key] == changes[0].keys;
    }
  }

  lemma TouchedKeys(current: Value, replacement: Value, p: Path)
    requires Touched(current, replacement, p)
    ensures p[0] in current.fields.Keys + replacement.fields.Keys
  {
  }

  lemma DescribesBelow(current: Value, replacement: Value, key: string, changes: seq<Change>)
    requires IsConfig(current) && IsConfig(replacement)
    requires IsConfig(Field(current, key)) && IsConfig(Field(replacement, key))
    requires var c, r := Field(current, key), Field(replacement, key);
             Describes(c, r, c.fields.Keys + r.fields.Keys, changes)
    ensures Describes(current, replacement, {key}, Below(key, changes))
  {
    var c, r := Field(current, key), Field(replacement, key);
    forall i | 0 <= i < |changes|
      ensures IsTouch(current, replacement, Below(key, changes)[i])
    {
      assert IsTouch(c, r, changes[i]);
      assert ([key] + changes[i].keys)[1..] == changes[i].keys;
    }
    forall p | Touched(current, replacement, p) && p[0] in {key}
      ensures Announced(Below(key, changes), p)
    {
      assert Touched(c, r, p[1..]);
      TouchedKeys(c, r, p[1..]);
      assert Announced(changes, p[1..]);
      var i :| 0 <= i < |changes| && changes[i].keys == p[1..];
      assert Below(key, changes)[i].keys == [p[0]] + p[1..] == p;
    }
    forall i, j | 0 <= i < j < |changes|
      ensures Below(key, changes)[i].keys != Below(key, changes)[j].keys
    {
      assert ([key] + changes[i].keys)[1..] == changes[i].keys && ([key] + changes[j].keys)[1..] == changes[j].keys;
    }
  }

  ghost predicate Progress(current: Value, replacement: Value, done: set<string>, changes: seq<Change>)
    requires IsConfig(current) && IsConfig(replacement)
  {
    Describes(current, replacement, done, changes) && Fold(current, changes) == Partly(current, replacement, done)
  }

  /** What a merge of these two objects promises about its changes. */
  ghost predicate MergedBy(current: Value, replacement: Value, changes: seq<Change>)
    requires IsConfig(current) && IsConfig(replacement)
  {
    Progress(current, replacement, current.fields.Keys + replacement.fields.Keys, changes)
  }

  lemma NoKeysDone(current: Value, replacement: Value)
    requires IsConfig(current) && IsConfig(replacement)
    ensures Partly(current, replacement, {}) == current && Progress(current, replacement, {}, [])
  {
    assert Partly(current, replacement, {}).fields == current.fields;
  }

  lemma UntouchedKey(current: Value, replacement: Value, key: string)
    requires IsConfig(current) && IsConfig(replacement)
    requires if key in replacement.fields then Field(current, key) == replacement.fields[key] && !IsConfig(replacement.fields[key])
             else key !in current.fields
    ensures forall p :: Touched(current, replacement, p) ==> p[0] != key
  {
  }

  lemma PartlyNext(current: Value, replacement: Value, done: set<string>, key: string)
    requires IsConfig(current) && IsConfig(replacement) && key !in done
    requires key in current.fields || Field(replacement, key) != Undefined
    ensures Partly(current, replacement, done + {key})
         == WithField(Partly(current, replacement, done), key, MergedField(current, replacement, key))
  {
    var after, before := Partly(current, replacement, done + {key}).fields, Partly(current, replacement, done).fields;
    var x := MergedField(current, replacement, key);
    assert after[key] == x;
    assert after.Keys == before.Keys + {key};
    forall k | k in after && k != key
      ensures after[k] == before[k]
    {
    }
    assert after == before[key := x];
  }

  lemma PartlyUnchanged(current: Value, replacement: Value, done: set<string>, key: string)
    requires IsConfig(current) && IsConfig(replacement) && key !in done
    requires key in replacement.fields && Field(current, key) == replacement.fields[key] && !IsConfig(replacement.fields[key])
    ensures Partly(current, replacement, done + {key}) == Partly(current, replacement, done)
  {
    var after, before := Partly(current, replacement, done + {key}).fields, Partly(current, replacement, done).fields;
    forall k
      ensures k in after <==> k in before
    {
      assert k in after ==> k in current.fields || k in done || k == key;
    }
    forall k | k in after
      ensures after[k] == before[k]
    {
      assert k == key ==> after[k] == MergedField(current, replacement, key) == Field(current, key);
    }
    assert after == before;
  }

  lemma SkipKey(current: Value, replacement: Value, done: set<string>, changes: seq<Change>, key: string)
    requires IsConfig(current) && IsConfig(replacement) && Progress(current, replacement, done, changes) && key !in done
    requires key in replacement.fields && Field(current, key) == replacement.fields[key] && !IsConfig(replacement.fields[key])
    ensures Partly(current, replacement, done + {key}) == Partly(current, replacement, done)
    ensures Progress(current, replacement, done + {key}, changes)
  {
    UntouchedKey(current, replacement, key);
    DescribesNone(current, replacement, key);
    DescribesBoth(current, replacement, done, changes, {key}, []);
    assert changes + [] == changes;
    PartlyUnchanged(current, replacement, done, key);
  }

  lemma WriteKey(current: Value, replacement: Value, done: set<string>, changes: seq<Change>, key: string)
    requires IsConfig(current) && IsConfig(replacement) && Progress(current, replacement, done, changes) && key !in done
    requires Touched(current, replacement, [key])
    requires !(IsConfig(Field(current, key)) && IsConfig(Field(replacement, key)))
    ensures Partly(current, replacement, done + {key})
         == WithField(Partly(current, replacement, done), key, Field(replacement, key))
    ensures Progress(current, replacement, done + {key}, changes + [Change([key], Field(replacement, key))])
  {
    var x := Field(replacement, key);
    DescribesOne(current, replacement, key);
    DescribesBoth(current, replacement, done, changes, {key}, [Change([key], x)]);
    FoldOne(current, changes, Change([key], x));
    assert Parent([key]) == [];
    PartlyNext(current, replacement, done, key);
  }

  lemma MergeKey(current: Value, replacement: Value, done: set<string>, changes: seq<Change>, key: string, below: seq<Change>)
    requires IsConfig(current) && IsConfig(replacement) && Progress(current, replacement, done, changes) && key !in done
    requires IsConfig(Field(current, key)) && IsConfig(Field(replacement, key))
    requires MergedBy(Field(current, key), Field(replacement, key), below)
    ensures Partly(current, replacement, done + {key})
         == WithField(Partly(current, replacement, done), key, Merged(Field(current, key), Field(replacement, key)))
    ensures Progress(current, replacement, done + {key}, changes + Below(key, below))
  {
    DescribesBelow(current, replacement, key, below);
    DescribesBoth(current, replacement, done, changes, {key}, Below(key, below));
    FoldAppend(current, changes, Below(key, below));
    var part := Partly(current, replacement, done);
    assert Field(part, key) == Field(current, key);
    forall i | 0 <= i < |below|
      ensures below[i].keys != []
    {
      assert IsTouch(Field(current, key), Field(replacement, key), below[i]);
    }
    FoldBelow(part, key, below);
    PartlyNext(current, replacement, done, key);
  }

  // ----- what a reader sees

  /** Two readings agree: the same value, or objects whose fields are read by longer paths. */
  predicate SameReading(a: Value, b: Value) {
    a == b || (IsConfig(a) && IsConfig(b))
  }

  /** Every path reads the same in both; a dropped key that is left as undefined makes no difference. */
  ghost predicate ReadsAs(v: Value, w: Value) {
    forall p: Path :: SameReading(Get(v, p), Get(w, p))
  }

  lemma MergedAt(current: Value, replacement: Value, key: string)
    requires IsConfig(current) && IsConfig(replacement)
    ensures Field(Merged(current, replacement), key) == MergedField(current, replacement, key)
  {
    var all := current.fields.Keys + replacement.fields.Keys;
    assert Merged(current, replacement) == Partly(current, replacement, all);
    if key !in Partly(current, replacement, all).fields {
      assert MergedField(current, replacement, key) == Undefined;
    }
  }

  lemma {:induction false} MergedReading(current: Value, replacement: Value, p: Path)
    requires IsConfig(current) && IsConfig(replacement)
    ensures SameReading(Get(Merged(current, replacement), p), Get(replacement, p))
    decreases |p|
  {
    if p == [] {
    } else {
      var c, r := Field(current, p[0]), Field(replacement, p[0]);
      MergedAt(current, replacement, p[0]);
      if !IsConfig(c) || !IsConfig(r) {
      } else {
        MergedReading(c, r, p[1..]);
      }
    }
  }

  /** After a merge every path reads as in the new configuration. */
  lemma MergedReadsAsNew(current: Value, replacement: Value)
    requires IsConfig(current) && IsConfig(replacement)
    ensures ReadsAs(Merged(current, replacement), replacement)
  {
    forall p: Path
      ensures SameReading(Get(Merged(current, replacement), p), Get(replacement, p))
    {
      MergedReading(current, replacement, p);
    }
  }

  predicate Present(v: Value, keys: Path) {
    keys == [] || (v.Obj? && keys[0] in v.fields && Present(v.fields[keys[0]], keys[1..]))
  }

  /** No undefined values, as in anything that has been read from a file. */
  ghost predicate Defined(v: Value) {
    forall p: Path :: Present(v, p) ==> Get(v, p) != Undefined
  }

  lemma {:induction false} DefinedField(v: Value, key: string)
    requires Defined(v) && v.Obj? && key in v.fields
    ensures Defined(v.fields[key]) && v.fields[key] != Undefined
  {
    forall p: Path | Present(v.fields[key], p)
      ensures Get(v.fields[key], p) != Undefined
    {
      assert ([key] + p)[1..] == p && Present(v, [key] + p);
    }
    assert Present(v.fields[key], []);
  }

  lemma {:induction false} TouchedDiffers(current: Value, replacement: Value, p: Path)
    requires Touched(current, replacement, p)
    ensures current != replacement
    decreases |p|
  {
    if p[0] !in replacement.fields || !IsConfig(Field(current, p[0])) || !IsConfig(Field(replacement, p[0])) {
    } else {
      TouchedDiffers(Field(current, p[0]), Field(replacement, p[0]), p[1..]);
    }
  }

  lemma {:induction false} UntouchedIsSame(current: Value, replacement: Value)
    requires IsConfig(current) && IsConfig(replacement) && Defined(replacement)
    requires forall p :: !Touched(current, replacement, p)
    ensures current == replacement
    decreases replacement
  {
    forall key | key in current.fields
      ensures key in replacement.fields
    {
      assert !Touched(current, replacement, [key]);
    }
    forall key | key in replacement.fields
      ensures key in current.fields && current.fields[key] == replacement.fields[key]
    {
      var c, r := Field(current, key), replacement.fields[key];
      DefinedField(replacement, key);
      assert !Touched(current, replacement, [key]);
      if !IsConfig(c) || !IsConfig(r) {
      } else {
        forall p
          ensures !Touched(c, r, p)
        {
          assert ([key] + p)[1..] == p && !Touched(current, replacement, [key] + p);
        }
        UntouchedIsSame(c, r);
      }
    }
    assert current.fields == replacement.fields;
  }

  lemma TouchIsAnnounced(current: Value, replacement: Value, changes: seq<Change>, p: Path)
    requires IsConfig(current) && IsConfig(replacement) && MergedBy(current, replacement, changes)
    requires Touched(current, replacement, p)
    ensures Announced(changes, p) && changes != []
  {
    TouchedKeys(current, replacement, p);
    assert Announced(changes, p);
  }

  /**
   A merge announces nothing exactly when nothing has changed and no dropped key is still there as undefined.
   */
  lemma SilentExactly(current: Value, replacement: Value, changes: seq<Change>)
    requires IsConfig(current) && IsConfig(replacement) && Defined(replacement) && MergedBy(current, replacement, changes)
    ensures changes == [] <==> current == replacement
  {
    if changes == [] {
      forall p
        ensures !Touched(current, replacement, p)
      {
        if Touched(current, replacement, p) {
          TouchIsAnnounced(current, replacement, changes, p);
        }
      }
      UntouchedIsSame(current, replacement);
    } else {
      assert IsTouch(current, replacement, changes[0]);
      TouchedDiffers(current, replacement, changes[0].keys);
    }
  }

  lemma {:induction false} DifferenceIsTouched(current: Value, replacement: Value, p: Path) returns (q: Path)
    requires IsConfig(current) && IsConfig(replacement) && !SameReading(Get(current, p), Get(replacement, p))
    ensures Touched(current, replacement, q) && q <= p
    decreases |p|
  {
    var c, r := Field(current, p[0]), Field(replacement, p[0]);
    if IsConfig(c) && IsConfig(r) {
      var q' := DifferenceIsTouched(c, r, p[1..]);
      q := [p[0]] + q';
      assert q[1..] == q' && p == [p[0]] + p[1..];
    } else {
      q := [p[0]];
      assert p == [p[0]] + p[1..];
    }
  }

  /** A listener hears of every difference: a change at the path or at one above it. */
  lemma EveryDifferenceAnnounced(current: Value, replacement: Value, changes: seq<Change>, p: Path)
    requires IsConfig(current) && IsConfig(replacement) && MergedBy(current, replacement, changes)
    requires !SameReading(Get(current, p), Get(replacement, p))
    ensures exists i :: 0 <= i < |changes| && changes[i].keys <= p && changes[i].value == Get(replacement, changes[i].keys)
  {
    var q := DifferenceIsTouched(current, replacement, p);
    TouchIsAnnounced(current, replacement, changes, q);
    var i :| 0 <= i < |changes| && changes[i].keys == q;
    assert IsTouch(current, replacement, changes[i]);
  }
}
