/**
 Following a component's section of the configuration file (components/OptionsWatcher.ts): a new section is
 compared with the current one and written over it key by key, and every write is announced.
 */
module OptionsWatcher {
  import opened ConfigMerge
  import opened Wrappers

  datatype Error = Uninitialized | KeyDoesNotExist(keys: Path, key: string) | CannotSetProperty(keys: Path)

  datatype Event = Ready(config: Value) | Changed(change: Change) | Removed | Failed(error: Error)

  predicate IsArray(v: Value) {
    v.Obj? && v.isArray
  }

  predicate Truthy(v: Value) {
    !v.Undefined? && !v.Null? && v != Bool(false) && v != Num(0) && v != Text("")
  }

  function TypeOf(v: Value): string {
    match v
    case Undefined => "undefined"
    case Null => "object"
    case Bool(_) => "boolean"
    case Num(_) => "number"
    case Text(_) => "string"
    case Obj(_, _) => "object"
  }

  /** The events of a merge below a path. */
  function Announcements(prevKeys: Path, changes: seq<Change>): (events: seq<Event>)
    ensures |events| == |changes|
  {
    seq(|changes|, i requires 0 <= i < |changes| => Changed(Change(prevKeys + changes[i].keys, changes[i].value)))
  }

  lemma AnnouncementsBelow(prevKeys: Path, key: string, changes: seq<Change>)
    ensures Announcements(prevKeys + [key], changes) == Announcements(prevKeys, Below(key, changes))
  {
    forall i | 0 <= i < |changes|
      ensures Announcements(prevKeys + [key], changes)[i] == Announcements(prevKeys, Below(key, changes))[i]
    {
      assert prevKeys + [key] + changes[i].keys == prevKeys + ([key] + changes[i].keys);
    }
  }

  lemma AnnouncementsAppend(prevKeys: Path, a: seq<Change>, b: seq<Change>)
    ensures Announcements(prevKeys, a + b) == Announcements(prevKeys, a) + Announcements(prevKeys, b)
  {
  }

  /** Writing a field of the object that has been put at a path. */
  lemma SetBelow(v: Value, prevKeys: Path, part: Value, key: string, x: Value)
    requires Get(v, prevKeys).Obj? && part.Obj?
    ensures Get(Replace(v, prevKeys, part), Parent(prevKeys + [key])) == part
    ensures Apply(Replace(v, prevKeys, part), Change(prevKeys + [key], x)) == Replace(v, prevKeys, WithField(part, key, x))
  {
    assert Parent(prevKeys + [key]) == prevKeys;
    ReplaceTwice(v, prevKeys, part, WithField(part, key, x));
  }

  /** Replacing an object field of the object that has been put at a path. */
  lemma MergeBelow(v: Value, prevKeys: Path, part: Value, key: string, x: Value)
    requires Get(v, prevKeys).Obj? && part.Obj? && Field(part, key).Obj?
    ensures var v' := Replace(v, prevKeys, part);
            Get(v', prevKeys + [key]).Obj? && Replace(v', prevKeys + [key], x) == Replace(v, prevKeys, WithField(part, key, x))
  {
    var v' := Replace(v, prevKeys, part);
    ReplaceTwice(v, prevKeys, part, WithField(part, key, x));
    ReplaceBelow(v', prevKeys, key, x);
  }

  lemma EntryMerged(v: Value, prevKeys: Path, current: Value, replacement: Value, done: set<string>, sofar: seq<Change>,
                    key: string, below: seq<Change>)
    requires IsConfig(current) && IsConfig(replacement) && Get(v, prevKeys).Obj? && key !in done
    requires Progress(current, replacement, done, sofar)
    requires IsConfig(Field(current, key)) && IsConfig(Field(replacement, key))
    requires MergedBy(Field(current, key), Field(replacement, key), below)
    ensures Progress(current, replacement, done + {key}, sofar + Below(key, below))
    ensures var v' := Replace(v, prevKeys, Partly(current, replacement, done));
            && Get(v', prevKeys + [key]).Obj?
            && Replace(v', prevKeys + [key], Merged(Field(current, key), Field(replacement, key)))
            == Replace(v, prevKeys, Partly(current, replacement, done + {key}))
    ensures Announcements(prevKeys, sofar) + Announcements(prevKeys + [key], below)
         == Announcements(prevKeys, sofar + Below(key, below))
  {
    AnnouncementsBelow(prevKeys, key, below);
    AnnouncementsAppend(prevKeys, sofar, Below(key, below));
    MergeKey(current, replacement, done, sofar, key, below);
    var part := Partly(current, replacement, done);
    assert Field(part, key) == Field(current, key);
    MergeBelow(v, prevKeys, part, key, Merged(Field(current, key), Field(replacement, key)));
  }

  lemma FieldBelow(v: Value, prevKeys: Path, part: Value, key: string)
    requires Get(v, prevKeys).Obj? && part.Obj?
    ensures Get(Replace(v, prevKeys, part), prevKeys + [key]) == Field(part, key)
  {
    GetReplaced(v, prevKeys, part);
    GetAppend(Replace(v, prevKeys, part), prevKeys, key);
  }

  lemma ReachesFromObject(v: Value, keys: Path)
    requires Get(v, keys).Obj?
    ensures v.Obj? && Truthy(v)
  {
    if keys != [] {
      PathThroughObject(v, keys);
    }
  }

  /** The section that is followed after a file has been read. */
  function NextConfig(current: Value, section: Option<Value>): Value {
    match section
    case None => if Truthy(current) then Undefined else current
    case Some(config) =>
      if !Truthy(current) then config
      else if IsConfig(current) && IsConfig(config) then Merged(current, config)
      else if current.Obj? then WithField(current, "undefined", config)
      else current
  }

  /**
   What the followed section becomes, by what it was: nothing, null, false, 0 and the empty text count as not being there,
   so that the new section is taken as it is; any other plain value is never replaced; and lists and objects are
   written to. A section that is no longer in the file leaves nothing, or what counts as not being there.
   */
  lemma SectionAfter(current: Value, config: Value)
    ensures var next, gone := NextConfig(current, Some(config)), NextConfig(current, None);
            match current
            case Undefined => next == config && gone == current
            case Null => next == config && gone == current
            case Bool(b) => next == (if b then current else config) && gone == (if b then Undefined else current)
            case Num(n) => next == (if n != 0 then current else config) && gone == (if n != 0 then Undefined else current)
            case Text(t) => next == (if t != "" then current else config) && gone == (if t != "" then Undefined else current)
            case Obj(isArray, fields) =>
              && gone == Undefined && next.Obj? && next.isArray == isArray
              && (isArray || !IsConfig(config) ==> next.fields == fields["undefined" := config])
  {
  }

  /** Each key of the path is there, in an object or a list. */
  predicate Reaches(v: Value, keys: Path)
    decreases |keys|
  {
    keys == [] || (v.Obj? && keys[0] in v.fields && Reaches(v.fields[keys[0]], keys[1..]))
  }

  lemma {:induction false} ReachesFurther(v: Value, keys: Path, key: string)
    ensures Reaches(v, keys + [key]) <==> Reaches(v, keys) && Get(v, keys).Obj? && key in Get(v, keys).fields
    decreases |keys|
  {
    if keys == [] {
      assert [key][1..] == [];
    } else {
      assert (keys + [key])[1..] == keys[1..] + [key];
      if v.Obj? && keys[0] in v.fields {
        ReachesFurther(v.fields[keys[0]], keys[1..], key);
      }
    }
  }

  lemma {:induction false} ReachesAll(v: Value, keys: Path, i: nat)
    requires i <= |keys| && Reaches(v, keys)
    ensures Reaches(v, keys[..i])
    decreases |keys|
  {
    if i == 0 {
    } else {
      assert keys[..i][1..] == keys[1..][..i - 1];
      ReachesAll(v.fields[keys[0]], keys[1..], i - 1);
    }
  }

  /** The first key on the way that is not there. */
  predicate FirstMissing(v: Value, keys: Path, i: nat) {
    i < |keys| && Reaches(v, keys[..i]) && !Reaches(v, keys[..i + 1])
  }

  class OptionsWatcher {
    var scopedConfig: Value
    var events: seq<Event>

    constructor ()
      ensures scopedConfig == Undefined && events == []
    {
      scopedConfig, events := Undefined, [];
    }

    method GetValue(keys: Path) returns (value: Value)
      ensures value == Get(scopedConfig, keys)
    {
      value := scopedConfig;
      for i := 0 to |keys|
        invariant Get(value, keys[i..]) == Get(scopedConfig, keys)
      {
        assert keys[i..][0] == keys[i] && keys[i..][1..] == keys[i + 1..];
        if !value.Obj? || keys[i] !in value.fields {
          GetOfUndefined(keys[i + 1..]);
          return Undefined;
        }
        value := value.fields[keys[i]];
      }
    }

    method SetValue(keys: Path, value: Value) returns (error: Option<Error>)
      modifies this
      ensures error.None? <==> Get(old(scopedConfig), Parent(keys)).Obj?
      ensures error == Some(Uninitialized) <==> !Truthy(old(scopedConfig))
      ensures error == Some(CannotSetProperty(keys)) <==>
        Truthy(old(scopedConfig)) && Reaches(old(scopedConfig), Parent(keys)) && !Get(old(scopedConfig), Parent(keys)).Obj?
      ensures error.Some? && error.value.KeyDoesNotExist? ==>
        exists i: nat :: FirstMissing(old(scopedConfig), Parent(keys), i) && error.value == KeyDoesNotExist(keys, Parent(keys)[i])
      ensures error.None? ==>
        && scopedConfig == Apply(old(scopedConfig), Change(keys, value))
        && events == old(events) + [Changed(Change(keys, value))]
      ensures error.Some? ==> unchanged(this)
    {
      if !Truthy(scopedConfig) {
        if Get(scopedConfig, Parent(keys)).Obj? {
          ReachesFromObject(scopedConfig, Parent(keys));
        }
        return Some(Uninitialized);
      }
      var obj, parent := scopedConfig, Parent(keys);
      for i := 0 to |parent|
        invariant Get(obj, parent[i..]) == Get(scopedConfig, parent)
        invariant Reaches(scopedConfig, parent[..i]) && obj == Get(scopedConfig, parent[..i])
        invariant unchanged(this)
      {
        assert parent[i..][0] == parent[i] && parent[i..][1..] == parent[i + 1..];
        assert parent[..i + 1] == parent[..i] + [parent[i]];
        ReachesFurther(scopedConfig, parent[..i], parent[i]);
        GetAppend(scopedConfig, parent[..i], parent[i]);
        if !obj.Obj? || parent[i] !in obj.fields {
          GetOfUndefined(parent[i + 1..]);
          assert FirstMissing(scopedConfig, parent, i);
          if Reaches(scopedConfig, parent) {
            ReachesAll(scopedConfig, parent, i + 1);
          }
          return Some(KeyDoesNotExist(keys, parent[i]));
        }
        obj := obj.fields[parent[i]];
      }
      assert parent[..|parent|] == parent;
      if !obj.Obj? {
        return Some(CannotSetProperty(keys));
      }
      scopedConfig := Replace(scopedConfig, parent, WithField(obj, Last(keys), value));
      events := events + [Changed(Change(keys, value))];
      return None;
    }

    /** The state of a merge under way: the keys in `done` have been merged and announced. */
    ghost predicate Merging(v: Value, before: seq<Event>, prevKeys: Path, current: Value, replacement: Value,
                            done: set<string>, changes: seq<Change>)
      reads this
    {
      && Get(v, prevKeys) == current && IsConfig(current) && IsConfig(replacement)
      && Progress(current, replacement, done, changes)
      && scopedConfig == Replace(v, prevKeys, Partly(current, replacement, done))
      && events == before + Announcements(prevKeys, changes)
    }

    /** Writes one field of the merged object and announces it. */
    method WriteField(newConfigValue: Value, currentConfigValue: Value, prevKeys: Path, key: string,
                      ghost v: Value, ghost before: seq<Event>, ghost done: set<string>, ghost sofar: seq<Change>)
        returns (ghost changes: seq<Change>)
      requires Merging(v, before, prevKeys, currentConfigValue, newConfigValue, done, sofar) && key !in done
      requires Touched(currentConfigValue, newConfigValue, [key])
      requires !(IsConfig(Field(currentConfigValue, key)) && IsConfig(Field(newConfigValue, key)))
      modifies this
      ensures Merging(v, before, prevKeys, currentConfigValue, newConfigValue, done + {key}, changes)
    {
      var value := Field(newConfigValue, key);
      SetBelow(v, prevKeys, Partly(currentConfigValue, newConfigValue, done), key, value);
      WriteKey(currentConfigValue, newConfigValue, done, sofar, key);
      AnnouncementsAppend(prevKeys, sofar, [Change([key], value)]);
      var error := SetValue(prevKeys + [key], value);
      changes := sofar + [Change([key], value)];
    }

    method MergeObject(newConfigValue: Value, currentConfigValue: Value, prevKeys: Path, key: string,
                       ghost v: Value, ghost before: seq<Event>, ghost done: set<string>, ghost sofar: seq<Change>)
        returns (ghost changes: seq<Change>)
      requires Merging(v, before, prevKeys, currentConfigValue, newConfigValue, done, sofar) && key !in done
      requires IsConfig(Field(currentConfigValue, key)) && IsConfig(Field(newConfigValue, key))
      modifies this
      ensures Merging(v, before, prevKeys, currentConfigValue, newConfigValue, done + {key}, changes)
      decreases newConfigValue, 0
    {
      FieldBelow(v, prevKeys, Partly(currentConfigValue, newConfigValue, done), key);
      var error;
      ghost var below;
      error, below := Merge(newConfigValue.fields[key], currentConfigValue.fields[key], prevKeys + [key]);
      EntryMerged(v, prevKeys, currentConfigValue, newConfigValue, done, sofar, key, below);
      changes := sofar + Below(key, below);
      assert scopedConfig == Replace(v, prevKeys, Partly(currentConfigValue, newConfigValue, done + {key}));
      assert events == before + (Announcements(prevKeys, sofar) + Announcements(prevKeys + [key], below));
    }

    method MergeEntry(newConfigValue: Value, currentConfigValue: Value, prevKeys: Path, key: string,
                      ghost v: Value, ghost before: seq<Event>, ghost done: set<string>, ghost sofar: seq<Change>)
        returns (ghost changes: seq<Change>)
      requires Merging(v, before, prevKeys, currentConfigValue, newConfigValue, done, sofar) && key !in done
      requires key in newConfigValue.fields
      modifies this
      ensures Merging(v, before, prevKeys, currentConfigValue, newConfigValue, done + {key}, changes)
      decreases newConfigValue, 1
    {
      var keys, newValue := prevKeys + [key], newConfigValue.fields[key];
      ghost var part := Partly(currentConfigValue, newConfigValue, done);
      FieldBelow(v, prevKeys, part, key);
      var currentValue := GetValue(keys);
      assert currentValue == Field(currentConfigValue, key);
      if TypeOf(newValue) != TypeOf(currentValue) || IsArray(newValue) != IsArray(currentValue) {
        changes := WriteField(newConfigValue, currentConfigValue, prevKeys, key, v, before, done, sofar);
        return;
      }
      if IsConfig(newValue) {
        if IsConfig(currentValue) {
          changes := MergeObject(newConfigValue, currentConfigValue, prevKeys, key, v, before, done, sofar);
        } else {
          changes := WriteField(newConfigValue, currentConfigValue, prevKeys, key, v, before, done, sofar);
        }
        return;
      }
      if newValue != currentValue {
        changes := WriteField(newConfigValue, currentConfigValue, prevKeys, key, v, before, done, sofar);
      } else {
        SkipKey(currentConfigValue, newConfigValue, done, sofar, key);
        changes := sofar;
      }
    }

    method Merge(newConfigValue: Value, currentConfigValue: Value, prevKeys: Path)
        returns (error: Option<Error>, ghost changes: seq<Change>)
      requires Get(scopedConfig, prevKeys) == currentConfigValue
      requires prevKeys == [] || (IsConfig(newConfigValue) && IsConfig(currentConfigValue))
      modifies this
      ensures IsConfig(newConfigValue) && IsConfig(currentConfigValue) ==>
        && error.None?
        && MergedBy(currentConfigValue, newConfigValue, changes)
        && scopedConfig == Replace(old(scopedConfig), prevKeys, Merged(currentConfigValue, newConfigValue))
        && events == old(events) + Announcements(prevKeys, changes)
      ensures !(IsConfig(newConfigValue) && IsConfig(currentConfigValue)) ==>
        && (error.None? <==> currentConfigValue.Obj?)
        && (error.None? ==>
            && scopedConfig == WithField(currentConfigValue, "undefined", newConfigValue)
            && events == old(events) + [Changed(Change([], newConfigValue))])
        && (error.Some? ==> unchanged(this))
      decreases newConfigValue, 2
    {
      changes := [];
      if !IsConfig(currentConfigValue) || !IsConfig(newConfigValue) {
        error := SetValue(prevKeys, newConfigValue);
        return;
      }
      ghost var v, before, done := scopedConfig, events, {};
      NoKeysDone(currentConfigValue, newConfigValue);
      ReplaceSame(v, prevKeys);
      var todo := currentConfigValue.fields.Keys;
      while todo != {}
        invariant todo <= currentConfigValue.fields.Keys
        invariant done == currentConfigValue.fields.Keys - newConfigValue.fields.Keys - todo
        invariant Merging(v, before, prevKeys, currentConfigValue, newConfigValue, done, changes)
      {
        var key :| key in todo;
        todo := todo - {key};
        if key !in newConfigValue.fields {
          changes := WriteField(newConfigValue, currentConfigValue, prevKeys, key, v, before, done, changes);
          done := done + {key};
        }
      }
      todo := newConfigValue.fields.Keys;
      while todo != {}
        invariant todo <= newConfigValue.fields.Keys
        invariant done == currentConfigValue.fields.Keys + newConfigValue.fields.Keys - todo
        invariant Merging(v, before, prevKeys, currentConfigValue, newConfigValue, done, changes)
      {
        var key :| key in todo;
        todo := todo - {key};
        changes := MergeEntry(newConfigValue, currentConfigValue, prevKeys, key, v, before, done, changes);
        done := done + {key};
      }
      assert done == currentConfigValue.fields.Keys + newConfigValue.fields.Keys;
      error := None;
    }

    /** The section in a file that has just been read, or None when the file does not name the component. */
    method HandleChange(section: Option<Value>)
      modifies this
      ensures scopedConfig == NextConfig(old(scopedConfig), section)
      ensures section.Some? && IsConfig(old(scopedConfig)) && IsConfig(section.value) ==>
        exists changes :: MergedBy(old(scopedConfig), section.value, changes)
          && events == old(events) + Announcements([], changes)
      ensures section.Some? && Truthy(old(scopedConfig)) && !(IsConfig(old(scopedConfig)) && IsConfig(section.value)) ==>
        exists event :: events == old(events) + [event]
          && (if old(scopedConfig).Obj? then event == Changed(Change([], section.value)) else event.Failed?)
      ensures section.Some? && !Truthy(old(scopedConfig)) ==> events == old(events) + [Ready(section.value)]
      ensures section.None? ==>
        events == old(events) + if Truthy(old(scopedConfig)) then [Removed] else []
    {
      match section
      case Some(config) =>
        if !Truthy(scopedConfig) {
          scopedConfig := config;
          events := events + [Ready(config)];
        } else {
          var error;
          ghost var changes;
          error, changes := Merge(config, scopedConfig, []);
          assert IsConfig(old(scopedConfig)) && IsConfig(config) ==> MergedBy(old(scopedConfig), config, changes);
          if error.Some? {
            events := events + [Failed(error.value)];
          }
        }
      case None =>
        if Truthy(scopedConfig) {
          scopedConfig := Undefined;
          events := events + [Removed];
        }
    }
  }

  lemma NotItsOwnField(v: Value, key: string)
    requires v.Obj? && key in v.fields
    ensures v.fields[key] != v
  {
    assert v.fields[key] < v;
  }

  /**
   A reader sees the section that has been read last exactly when both sections are objects, or nothing had been
   followed before, or the section is a plain value that has not changed. A section that is emptied
   (read as null) or becomes a list is not taken over: it ends up under the key "undefined" of the old one.
   */
  lemma FollowsExactly(current: Value, config: Value)
    ensures ReadsAs(NextConfig(current, Some(config)), config)
       <==> !Truthy(current) || (IsConfig(current) && IsConfig(config)) || (!current.Obj? && current == config)
  {
    var next := NextConfig(current, Some(config));
    if !Truthy(current) {
    } else if IsConfig(current) && IsConfig(config) {
      MergedReadsAsNew(current, config);
    } else {
      assert Get(next, []) == next && Get(config, []) == config;
      assert ReadsAs(next, config) ==> SameReading(Get(next, []), Get(config, []));
      if current.Obj? {
        assert next.fields["undefined"] == config;
        NotItsOwnField(next, "undefined");
      }
    }
  }

  function RunOf(sections: seq<Option<Value>>): Value {
    if sections == [] then Undefined
    else NextConfig(RunOf(sections[..|sections| - 1]), sections[|sections| - 1])
  }

  function Latest(sections: seq<Option<Value>>): Value
    requires sections != []
  {
    match sections[|sections| - 1]
    case Some(config) => config
    case None => Undefined
  }

  /** Over any run in which the section is an object or missing, readers always see the latest one. */
  lemma {:induction false} RunFollowsLatest(sections: seq<Option<Value>>)
    requires forall i :: 0 <= i < |sections| && sections[i].Some? ==> IsConfig(sections[i].value)
    ensures RunOf(sections) == Undefined || IsConfig(RunOf(sections))
    ensures sections != [] ==> ReadsAs(RunOf(sections), Latest(sections))
  {
    if sections == [] {
    } else {
      var front, latest := sections[..|sections| - 1], sections[|sections| - 1];
      RunFollowsLatest(front);
      assert RunOf(sections) == NextConfig(RunOf(front), latest);
      if latest.Some? {
        FollowsExactly(RunOf(front), latest.value);
        assert IsConfig(RunOf(front)) ==> IsConfig(Merged(RunOf(front), latest.value));
      } else {
        assert RunOf(sections) == Undefined == Latest(sections);
      }
    }
  }
}
