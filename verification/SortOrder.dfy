/**
 What a sorted result looks like, told from the values alone: which of two entries comes first, for every kind of value,
 ascending and descending, and for the later criteria where the earlier ones agree.
 */
module SortOrder {
  import opened Wrappers
  import opened Ordering
  import opened OrderedSelect

  /** Undefined, null, false, true, numbers, and texts; numbers by size and texts by their characters. */
  predicate Precedes(a: Value, b: Value) {
    match (a, b)
    case (Undefined, _) => !b.Undefined?
    case (Null, _) => b.Bool? || b.Num? || b.Text?
    case (Bool(p), Bool(q)) => !p && q
    case (Bool(_), _) => b.Num? || b.Text?
    case (Num(m), Num(n)) => m < n
    case (Num(_), _) => b.Text?
    case (Text(s), Text(t)) => TextLess(s, t)
    case (Text(_), _) => false
  }

  /** An attribute that an entry does not have counts as undefined. */
  lemma ValueRead(entry: Entry, attribute: string)
    ensures attribute in entry.values ==> AttributeValue(entry, attribute) == entry.values[attribute]
    ensures attribute !in entry.values ==> AttributeValue(entry, attribute) == Undefined
  {
  }

  /** By this criterion `x` has to come before `y`. */
  predicate ComesFirst(c: Criterion, x: Entry, y: Entry) {
    var a, b := AttributeValue(x, c.attribute), AttributeValue(y, c.attribute);
    if c.descending then Precedes(b, a) else Precedes(a, b)
  }

  predicate Agree(c: Criterion, x: Entry, y: Entry) {
    AttributeValue(x, c.attribute) == AttributeValue(y, c.attribute)
  }

  predicate AgreeUpTo(sort: seq<Criterion>, k: nat, x: Entry, y: Entry)
    requires k <= |sort|
  {
    forall l :: 0 <= l < k ==> Agree(sort[l], x, y)
  }

  lemma KeysTell(a: Value, b: Value)
    requires a != b
    ensures CompareKeys(a, b) < 0 <==> Precedes(a, b)
    ensures CompareKeys(a, b) != 0
  {
    if a.Text? && b.Text? {
      TextLessTrichotomy(a.text, b.text);
    }
  }

  lemma DifferenceTells(c: Criterion, x: Entry, y: Entry)
    ensures Difference(c, x, y) == 0 <==> Agree(c, x, y)
    ensures !Agree(c, x, y) ==> (Difference(c, x, y) < 0 <==> ComesFirst(c, x, y))
  {
    var a, b := AttributeValue(x, c.attribute), AttributeValue(y, c.attribute);
    CompareKeysProperties(a, b, a);
    CompareKeysProperties(b, a, b);
    if a != b {
      KeysTell(a, b);
      KeysTell(b, a);
    }
  }

  /** The first criterion on which two entries differ decides. */
  lemma {:induction false} FirstDifferenceDecides(sort: seq<Criterion>, k: nat, x: Entry, y: Entry)
    requires k < |sort| && AgreeUpTo(sort, k, x, y) && !Agree(sort[k], x, y)
    ensures Compare(sort, x, y) < 0 <==> ComesFirst(sort[k], x, y)
    ensures Compare(sort, x, y) != 0
    decreases k
  {
    DifferenceTells(sort[0], x, y);
    if k == 0 {
    } else {
      assert Agree(sort[0], x, y);
      assert forall l :: 0 <= l < k - 1 ==> sort[1..][l] == sort[l + 1];
      FirstDifferenceDecides(sort[1..], k - 1, x, y);
    }
  }

  lemma {:induction false} AllAgreeIsTie(sort: seq<Criterion>, x: Entry, y: Entry)
    requires AgreeUpTo(sort, |sort|, x, y)
    ensures Compare(sort, x, y) == 0
    decreases |sort|
  {
    if sort == [] {
    } else {
      assert Agree(sort[0], x, y);
      DifferenceTells(sort[0], x, y);
      assert forall l :: 0 <= l < |sort| - 1 ==> sort[1..][l] == sort[l + 1];
      AllAgreeIsTie(sort[1..], x, y);
    }
  }

  /**
   In a sorted result an entry that stands before another comes first by the first criterion on which the two differ:
   with the smaller value when that is ascending, and with the greater when it is descending.
   */
  lemma SortedByCriteria(sort: seq<Criterion>, s: seq<Entry>, i: nat, j: nat, k: nat)
    requires i < j < |StableSort(sort, s)| && k < |sort|
    requires AgreeUpTo(sort, k, StableSort(sort, s)[i], StableSort(sort, s)[j])
    requires !Agree(sort[k], StableSort(sort, s)[i], StableSort(sort, s)[j])
    ensures ComesFirst(sort[k], StableSort(sort, s)[i], StableSort(sort, s)[j])
  {
    var x, y := StableSort(sort, s)[i], StableSort(sort, s)[j];
    StableSortIs(sort, s, x);
    assert Compare(sort, x, y) <= 0;
    FirstDifferenceDecides(sort, k, x, y);
  }

  /** The stream of an input that the database has ordered by an attribute: that criterion comes first, then the sort's. */
  lemma StreamByCriteria(c: Criterion, sort: seq<Criterion>, s: seq<Entry>, i: nat, j: nat, k: nat)
    requires Ordered([c], s)
    requires var stream := GroupSorted(Some(c.attribute), sort, s);
             && i < j < |stream| && k <= |sort| && AgreeUpTo([c] + sort, k, stream[i], stream[j])
             && !Agree(([c] + sort)[k], stream[i], stream[j])
    ensures var stream := GroupSorted(Some(c.attribute), sort, s); ComesFirst(([c] + sort)[k], stream[i], stream[j])
  {
    StreamIsWholeSort(c, sort, s);
    SortedByCriteria([c] + sort, s, i, j, k);
  }

  /** What it means that the input is ordered by an attribute. */
  lemma OrderedMeans(c: Criterion, s: seq<Entry>)
    ensures Ordered([c], s) <==> forall i, j :: 0 <= i < j < |s| ==> Agree(c, s[i], s[j]) || ComesFirst(c, s[i], s[j])
  {
    forall x, y
      ensures Compare([c], x, y) <= 0 <==> Agree(c, x, y) || ComesFirst(c, x, y)
    {
      DifferenceTells(c, x, y);
      assert [c][1..] == [] && Compare([], x, y) == 0;
    }
  }

  /** Without an order from the database everything is sorted at once. */
  lemma WholeInputSorted(sort: seq<Criterion>, s: seq<Entry>)
    ensures GroupSorted(None, sort, s) == StableSort(sort, s)
  {
    if s == [] {
    } else {
      assert s[..|s|] == s && s[|s|..] == [];
      assert StableSort(sort, s) + [] == StableSort(sort, s);
    }
  }
}
