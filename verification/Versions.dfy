/**
 Which of two writes of one record wins (`precedesExistingVersion` in resources/Table.ts):
 the later timestamp, and on a tie the greater node name.
 */
module Versions {
  import opened Ordering
  import opened Wrappers

  /** The version and node id that an entry carries. */
  datatype Stamp = Stamp(version: int, nodeId: Option<int>)

  /** The mapping from node name to node id; the ids of different nodes differ. */
  predicate Distinct(names: map<string, int>) {
    forall a, b :: a in names && b in names && names[a] == names[b] ==> a == b
  }

  ghost function NameOf(names: map<string, int>, nodeId: Option<int>): Option<string> {
    if nodeId.Some? && exists name :: name in names && names[name] == nodeId.value
    then var name :| name in names && names[name] == nodeId.value; Some(name)
    else None
  }

  /** The name of a node is any name that maps to its id. */
  lemma NameIs(names: map<string, int>, name: string)
    requires Distinct(names) && name in names
    ensures NameOf(names, Some(names[name])) == Some(name)
  {
  }

  function TieBreak(updatedName: Option<string>, existingName: Option<string>): int {
    if updatedName.Some? && existingName.Some? && TextLess(existingName.value, updatedName.value) then 1
    else if updatedName == existingName then 0
    else -1
  }

  /** 1: the write wins over the existing entry; 0: a duplicate; -1: it comes before the existing entry. */
  ghost function Precedence(names: map<string, int>, txnTime: int, existing: Option<Stamp>, nodeId: Option<int>): int {
    if existing.None? || existing.value.version < txnTime then 1
    else if existing.value.version == txnTime && nodeId.Some? then
      if nodeId == existing.value.nodeId then 0
      else TieBreak(NameOf(names, nodeId), NameOf(names, existing.value.nodeId))
    else -1
  }

  /**
   The comparison without its steps. A write wins over an older entry, and over one of the same time whose node has the
   smaller name. It is a duplicate when it is of the same time and node, or the two nodes have the same name or none.
   In all other cases, with only one name known or no node at all, it loses.
   */
  lemma PrecedenceMeans(names: map<string, int>, txnTime: int, existing: Option<Stamp>, nodeId: Option<int>)
    ensures var order := Precedence(names, txnTime, existing, nodeId);
            var tied := existing.Some? && existing.value.version == txnTime && nodeId.Some?;
            var mine, theirs := NameOf(names, nodeId), if existing.Some? then NameOf(names, existing.value.nodeId) else None;
            && (order == 1 <==>
                  || existing.None? || existing.value.version < txnTime
                  || (tied && nodeId != existing.value.nodeId && mine.Some? && theirs.Some? && TextLess(theirs.value, mine.value)))
            && (order == 0 <==> tied && (nodeId == existing.value.nodeId || mine == theirs))
            && (order == -1 <==> order != 1 && order != 0)
  {
    if nodeId.Some? && NameOf(names, nodeId).Some? {
      TextLessIrreflexive(NameOf(names, nodeId).value);
    }
  }

  method PrecedesExistingVersion(names: map<string, int>, thisNodeId: Option<int>,
                                 txnTime: int, existing: Option<Stamp>, nodeId: Option<int>) returns (order: int)
    requires Distinct(names)
    ensures order == Precedence(names, txnTime, existing, if nodeId.None? then thisNodeId else nodeId)
  {
    var updatedId := if nodeId.None? then thisNodeId else nodeId;
    if existing.Some? && txnTime <= existing.value.version {
      if existing.value.version == txnTime && updatedId.Some? {
        var existingNodeId := existing.value.nodeId;
        if updatedId == existingNodeId {
          return 0;
        }
        var updatedNodeName: Option<string>, existingNodeName: Option<string> := None, None;
        var todo := names.Keys;
        while todo != {}
          invariant todo <= names.Keys
          invariant updatedNodeName.Some? ==> updatedNodeName.value in names && names[updatedNodeName.value] == updatedId.value
          invariant existingNodeName.Some? ==>
            existingNodeName.value in names && Some(names[existingNodeName.value]) == existingNodeId
          invariant updatedNodeName.None? ==> forall name :: name in names.Keys - todo ==> names[name] != updatedId.value
          invariant existingNodeName.None? ==> forall name :: name in names.Keys - todo ==> Some(names[name]) != existingNodeId
        {
          var nodeName :| nodeName in todo;
          if names[nodeName] == updatedId.value { updatedNodeName := Some(nodeName); }
          if Some(names[nodeName]) == existingNodeId { existingNodeName := Some(nodeName); }
          todo := todo - {nodeName};
        }
        assert updatedNodeName == NameOf(names, updatedId);
        assert existingNodeName == NameOf(names, existingNodeId);
        if updatedNodeName.Some? && existingNodeName.Some? && TextLess(existingNodeName.value, updatedNodeName.value) {
          return 1;
        }
        if updatedNodeName == existingNodeName {
          return 0;
        }
      }
      return -1;
    }
    return 1;
  }
}
