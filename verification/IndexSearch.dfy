/**
 What a search by an index finds, told from the records alone: in a table whose indexes are consistent, the entries of
 an index under a key are those of the records that have the value.
 */
module IndexSearch {
  import opened Wrappers
  import opened SecondaryIndex

  /** The key that a search for a scalar looks under: a text of more than 256 characters is cut, and marked. */
  predicate StandsFor(key: Scalar, scalar: Scalar) {
    if scalar.Text? && |scalar.text| > 256
    then key.Text? && |key.text| == 257 && key.text[..256] == scalar.text[..256] && key.text[256] == '\U{ffff}'
    else key == scalar
  }

  /** An element of a list counts as a scalar: itself, or the time of a date. */
  predicate ElemIs(elem: Elem, scalar: Scalar) {
    elem == Item(scalar) || (elem.DateItem? && scalar == Num(elem.time))
  }

  /** The attribute is the scalar, a date of that time, or a list with one of them. */
  predicate HasScalar(value: Attr, scalar: Scalar) {
    || value == Prim(scalar)
    || (value.Date? && scalar == Num(value.time))
    || (value.List? && exists i :: 0 <= i < |value.elems| && ElemIs(value.elems[i], scalar))
  }

  predicate HasNull(value: Attr) {
    value == Null || (value.List? && NullItem in value.elems)
  }

  /** The attribute of a record that is there: no tombstone, and no missing record. */
  function AttributeOf(t: Table, id: Id, name: string): Option<Attr> {
    match RecordOf(t, id)
    case Present(fields) => if name in fields then Some(fields[name]) else None
    case _ => None
  }

  lemma ShortenedStandsFor(key: Scalar, scalar: Scalar)
    ensures Shortened(scalar) == key <==> StandsFor(key, scalar)
  {
    if scalar.Text? && |scalar.text| > 256 {
      var cut := scalar.text[..256] + ['\U{ffff}'];
      assert cut[..256] == scalar.text[..256];
      if StandsFor(key, scalar) {
        assert key.text == key.text[..256] + [key.text[256]];
      }
    }
  }

  function KeysOfElem(elem: Elem, indexNulls: bool): seq<Key> {
    match elem
    case Item(scalar) => [Key(Shortened(scalar))]
    case NullItem => if indexNulls then [NullKey] else []
    case DateItem(time) => [Key(Num(time))]
    case OtherItem => []
  }

  lemma LastScalar(elem: Elem, indexNulls: bool, key: Scalar)
    ensures Key(key) in KeysOfElem(elem, indexNulls) <==> exists scalar :: ElemIs(elem, scalar) && StandsFor(key, scalar)
  {
    match elem
    case Item(scalar) => ShortenedStandsFor(key, scalar); assert ElemIs(elem, scalar);
    case DateItem(time) => assert ElemIs(elem, Num(time));
    case _ =>
  }

  lemma {:induction false} ElemsScalar(elems: seq<Elem>, indexNulls: bool, key: Scalar)
    ensures Key(key) in ElemKeys(elems, indexNulls)
       <==> exists i, scalar :: 0 <= i < |elems| && ElemIs(elems[i], scalar) && StandsFor(key, scalar)
    decreases |elems|
  {
    if elems == [] {
    } else {
      var front, last := elems[..|elems| - 1], elems[|elems| - 1];
      ElemsScalar(front, indexNulls, key);
      LastScalar(last, indexNulls, key);
      if i, scalar :| 0 <= i < |front| && ElemIs(front[i], scalar) && StandsFor(key, scalar) {
        assert ElemIs(elems[i], scalar);
      }
      if i, scalar :| 0 <= i < |elems| && ElemIs(elems[i], scalar) && StandsFor(key, scalar) {
        assert i < |front| ==> ElemIs(front[i], scalar);
      }
    }
  }

  lemma {:induction false} ElemsNull(elems: seq<Elem>, indexNulls: bool)
    ensures NullKey in ElemKeys(elems, indexNulls) <==> indexNulls && NullItem in elems
    decreases |elems|
  {
    if elems == [] {
    } else {
      ElemsNull(elems[..|elems| - 1], indexNulls);
      assert elems == elems[..|elems| - 1] + [elems[|elems| - 1]];
    }
  }

  lemma KeysScalar(value: Attr, indexNulls: bool, key: Scalar)
    ensures Key(key) in Keys(value, indexNulls) <==> exists scalar :: HasScalar(value, scalar) && StandsFor(key, scalar)
  {
    match value
    case Prim(scalar) => ShortenedStandsFor(key, scalar); assert HasScalar(value, scalar);
    case Date(time) => assert HasScalar(value, Num(time));
    case List(elems) =>
      ElemsScalar(elems, indexNulls, key);
      if i, scalar :| 0 <= i < |elems| && ElemIs(elems[i], scalar) && StandsFor(key, scalar) {
        assert HasScalar(value, scalar);
      }
    case _ =>
  }

  lemma KeysNull(value: Attr, indexNulls: bool)
    ensures NullKey in Keys(value, indexNulls) <==> indexNulls && HasNull(value)
  {
    if value.List? {
      ElemsNull(value.elems, indexNulls);
    }
  }

  lemma MarkedStandsFor(value: Attr, text: string, marked: Scalar)
    requires |text| > 256 && StandsFor(marked, Text(text))
    ensures (exists scalar: Scalar :: HasScalar(value, scalar) && StandsFor(marked, scalar) && (scalar.Text? ==> |scalar.text| > 256))
       <==> exists other: string :: |other| > 256 && other[..256] == text[..256] && HasScalar(value, Text(other))
  {
    if other :| |other| > 256 && other[..256] == text[..256] && HasScalar(value, Text(other)) {
      assert StandsFor(marked, Text(other));
    }
  }

  /**
   In a consistent table an index has a key for a record exactly when the record has a value that the key stands for.
   A scalar that is no long text stands for itself, so that a search for it finds exactly the records that have it;
   a search for a long text finds those that have a long text with the same 256 characters in front. Nulls are found in
   the indexes that index them.
   */
  lemma SearchFinds(t: Table, name: string, id: Id)
    requires Consistent(t) && name in t.indices
    ensures var value := AttributeOf(t, id, name);
            && (forall scalar: Scalar :: !scalar.Text? || |scalar.text| <= 256 ==>
                  ((Key(scalar), id) in t.indices[name] <==> value.Some? && HasScalar(value.value, scalar)))
            && (forall text: string, marked: Scalar :: |text| > 256 && StandsFor(marked, Text(text)) ==>
                  ((Key(marked), id) in t.indices[name]
                   <==> value.Some? && exists other: string :: |other| > 256 && other[..256] == text[..256] && HasScalar(value.value, Text(other))))
            && ((NullKey, id) in t.indices[name] <==> name in t.indexNulls && value.Some? && HasNull(value.value))
  {
    var nulls := name in t.indexNulls;
    assert Exact(t.indices[name], id, RightKeys(RecordOf(t, id), name, nulls));
    var value := AttributeOf(t, id, name);
    var attr := if value.Some? then value.value else Undefined;
    assert RightKeys(RecordOf(t, id), name, nulls) == Keys(attr, nulls);
    KeysNull(attr, nulls);
    forall scalar: Scalar | !scalar.Text? || |scalar.text| <= 256
      ensures (Key(scalar), id) in t.indices[name] <==> value.Some? && HasScalar(value.value, scalar)
    {
      KeysScalar(attr, nulls, scalar);
      assert StandsFor(scalar, scalar);
    }
    forall text: string, marked: Scalar | |text| > 256 && StandsFor(marked, Text(text))
      ensures (Key(marked), id) in t.indices[name]
         <==> value.Some? && exists other: string :: |other| > 256 && other[..256] == text[..256] && HasScalar(value.value, Text(other))
    {
      KeysScalar(attr, nulls, marked);
      MarkedStandsFor(attr, text, marked);
    }
  }

  /** And so it is after any run of operations, in indexes that do not index nulls. */
  lemma SearchAfterRun(t: Table, ops: seq<Operation>, name: string, id: Id, scalar: Scalar)
    requires Consistent(t) && (forall n :: n in t.indices ==> n !in t.indexNulls) && name in t.indices
    requires !scalar.Text? || |scalar.text| <= 256
    ensures var after := Run(t, ops);
            && name in after.indices
            && ((Key(scalar), id) in after.indices[name]
                <==> AttributeOf(after, id, name).Some? && HasScalar(AttributeOf(after, id, name).value, scalar))
  {
    IndexesFollowPrimary(t, ops);
    SearchFinds(Run(t, ops), name, id);
  }

  /** The primary store after one operation, and the records of all others as they were. */
  lemma RecordAfter(t: Table, op: Operation, other: Id)
    ensures var after := Done(t, op).primary;
            && (other != op.id ==> (other in after <==> other in t.primary))
            && (other != op.id && other in t.primary ==> other in after && after[other] == t.primary[other])
            && (op.Write? ==> op.id in after && after[op.id] == Present(op.fields))
            && (op.Delete? ==> if op.tracked then op.id in after && after[op.id] == NullRecord else op.id !in after)
            && (op.Evict? && op.id in t.primary && t.primary[op.id].Present? ==> op.id !in after)
            && (op.Evict? && (op.id !in t.primary || !t.primary[op.id].Present?) ==> after == t.primary)
  {
  }

  /** A plain invalidation keeps what the indexes need, and only that. */
  lemma InvalidationKeeps(t: Table, id: Id, name: string)
    requires id in t.primary && t.primary[id].Present?
    ensures var record := RecordOf(Done(t, Invalidate(id)), id);
            if t.indices == map[] then record == NullRecord
            else record.Present? && record.fields.Keys == t.indices.Keys
                 && (name in t.indices && name in t.primary[id].fields ==> record.fields[name] == t.primary[id].fields[name])
  {
  }
}
