/**
 Streaming results that the database delivers ordered on one attribute: they are loaded and sorted
 one group of equal values at a time (`transformToOrderedSelect` in resources/Table.ts).
 */
module OrderedSelect {
  import opened Wrappers
  import opened Ordering

  /** Primitive attribute values, in the order of database keys. */
  datatype Value = Undefined | Null | Bool(b: bool) | Num(n: int) | Text(text: string)

  datatype Entry = Entry(id: int, values: map<string, Value>)

  function AttributeValue(entry: Entry, attribute: string): Value {
    if attribute in entry.values then entry.values[attribute] else Undefined
  }

  // ----- comparing

  function Rank(v: Value): int {
    match v
    case Undefined => 0
    case Null => 1
    case Bool(b) => if b then 3 else 2
    case Num(_) => 4
    case Text(_) => 5
  }

  /** Negative, zero or positive. */
  function CompareKeys(a: Value, b: Value): int {
    if Rank(a) != Rank(b) then Rank(a) - Rank(b)
    else match a
      case Num(n) => n - b.n
      case Text(text) => if TextLess(text, b.text) then -1 else if text == b.text then 0 else 1
      case _ => 0
  }

  lemma CompareKeysProperties(a: Value, b: Value, c: Value)
    ensures CompareKeys(a, b) == 0 <==> a == b
    ensures CompareKeys(a, b) < 0 <==> CompareKeys(b, a) > 0
    ensures CompareKeys(a, b) <= 0 && CompareKeys(b, c) <= 0 ==> CompareKeys(a, c) <= 0
  {
    if a.Text? && b.Text? {
      TextLessTrichotomy(a.text, b.text);
      TextLessIrreflexive(a.text);
      if c.Text? && TextLess(a.text, b.text) && TextLess(b.text, c.text) {
        TextLessTransitive(a.text, b.text, c.text);
      }
    }
  }

  /** One sort criterion; a sort is a list of them, the first being the most significant. */
  datatype Criterion = Criterion(attribute: string, descending: bool)

  function Difference(c: Criterion, x: Entry, y: Entry): int {
    if c.descending then CompareKeys(AttributeValue(y, c.attribute), AttributeValue(x, c.attribute))
    else CompareKeys(AttributeValue(x, c.attribute), AttributeValue(y, c.attribute))
  }

  function Compare(sort: seq<Criterion>, x: Entry, y: Entry): int {
    if sort == [] then 0
    else if Difference(sort[0], x, y) != 0 then Difference(sort[0], x, y)
    else Compare(sort[1..], x, y)
  }

  lemma DifferenceProperties(c: Criterion, x: Entry, y: Entry, z: Entry)
    ensures Difference(c, x, y) == 0 <==> AttributeValue(x, c.attribute) == AttributeValue(y, c.attribute)
    ensures Difference(c, x, y) < 0 <==> Difference(c, y, x) > 0
    ensures Difference(c, x, y) <= 0 && Difference(c, y, z) <= 0 ==> Difference(c, x, z) <= 0
  {
    var a, b, d := AttributeValue(x, c.attribute), AttributeValue(y, c.attribute), AttributeValue(z, c.attribute);
    CompareKeysProperties(a, b, d);
    CompareKeysProperties(d, b, a);
    CompareKeysProperties(b, a, d);
  }

  /** The comparator is a total preorder, as sorting needs. */
  lemma {:induction false} ComparePreorder(sort: seq<Criterion>, x: Entry, y: Entry, z: Entry)
    ensures Compare(sort, x, y) < 0 <==> Compare(sort, y, x) > 0
    ensures Compare(sort, x, y) <= 0 && Compare(sort, y, z) <= 0 ==> Compare(sort, x, z) <= 0
  {
    if sort == [] {
    } else {
      ComparePreorder(sort[1..], x, y, z);
      DifferenceProperties(sort[0], x, y, z);
      DifferenceProperties(sort[0], y, x, z);
      DifferenceProperties(sort[0], x, z, y);
      DifferenceProperties(sort[0], y, z, x);
    }
  }

  // ----- the stable sort

  function Insert(sort: seq<Criterion>, x: Entry, s: seq<Entry>): seq<Entry> {
    if s == [] then [x]
    else if Compare(sort, x, s[0]) <= 0 then [x] + s
    else [s[0]] + Insert(sort, x, s[1..])
  }

  /** What the stable `Array.prototype.sort` returns. */
  function StableSort(sort: seq<Criterion>, s: seq<Entry>): seq<Entry> {
    if s == [] then [] else Insert(sort, s[0], StableSort(sort, s[1..]))
  }

  predicate Ordered(sort: seq<Criterion>, s: seq<Entry>) {
    forall i, j :: 0 <= i < j < |s| ==> Compare(sort, s[i], s[j]) <= 0
  }

  /** The entries that compare equal to `x`, in their order. */
  function Ties(sort: seq<Criterion>, s: seq<Entry>, x: Entry): seq<Entry> {
    if s == [] then []
    else (if Compare(sort, s[0], x) == 0 then [s[0]] else []) + Ties(sort, s[1..], x)
  }

  lemma {:induction false} InsertPermutes(sort: seq<Criterion>, x: Entry, s: seq<Entry>)
    ensures multiset(Insert(sort, x, s)) == multiset(s) + multiset{x}
    decreases |s|
  {
    if s == [] || Compare(sort, x, s[0]) <= 0 {
    } else {
      InsertPermutes(sort, x, s[1..]);
      assert s == [s[0]] + s[1..];
    }
  }

  lemma OrderedCons(sort: seq<Criterion>, x: Entry, s: seq<Entry>)
    requires Ordered(sort, s) && s != [] && Compare(sort, x, s[0]) <= 0
    ensures Ordered(sort, [x] + s)
  {
    forall i | 0 <= i < |s|
      ensures Compare(sort, x, s[i]) <= 0
    {
      ComparePreorder(sort, x, s[0], s[i]);
    }
  }

  lemma {:induction false} InsertOrders(sort: seq<Criterion>, x: Entry, s: seq<Entry>)
    requires Ordered(sort, s)
    ensures Ordered(sort, Insert(sort, x, s))
    decreases |s|
  {
    if s == [] {
    } else {
      if Compare(sort, x, s[0]) <= 0 {
        OrderedCons(sort, x, s);
      } else {
        var rest := Insert(sort, x, s[1..]);
        InsertOrders(sort, x, s[1..]);
        InsertPermutes(sort, x, s[1..]);
        ComparePreorder(sort, s[0], x, x);
        assert rest[0] in multiset(rest);
        assert rest[0] == x || rest[0] in s[1..];
        OrderedCons(sort, s[0], rest);
      }
    }
  }

  lemma TiesCons(sort: seq<Criterion>, x: Entry, s: seq<Entry>, y: Entry)
    ensures Ties(sort, [x] + s, y) == (if Compare(sort, x, y) == 0 then [x] else []) + Ties(sort, s, y)
  {
    assert ([x] + s)[1..] == s;
  }

  lemma NotBothTied(sort: seq<Criterion>, x: Entry, z: Entry, y: Entry)
    requires Compare(sort, x, z) > 0
    ensures !(Compare(sort, x, y) == 0 && Compare(sort, z, y) == 0)
  {
    ComparePreorder(sort, x, y, z);
    ComparePreorder(sort, z, y, x);
  }

  lemma {:induction false} InsertKeepsTies(sort: seq<Criterion>, x: Entry, s: seq<Entry>, y: Entry)
    ensures Ties(sort, Insert(sort, x, s), y) == Ties(sort, [x] + s, y)
    decreases |s|
  {
    if s == [] || Compare(sort, x, s[0]) <= 0 {
    } else {
      InsertKeepsTies(sort, x, s[1..], y);
      TiesCons(sort, s[0], Insert(sort, x, s[1..]), y);
      TiesCons(sort, x, s[1..], y);
      TiesCons(sort, x, s, y);
      NotBothTied(sort, x, s[0], y);
    }
  }

  /** Stable sorting permutes, orders, and keeps the order of ties. */
  lemma {:induction false} StableSortIs(sort: seq<Criterion>, s: seq<Entry>, y: Entry)
    ensures multiset(StableSort(sort, s)) == multiset(s)
    ensures Ordered(sort, StableSort(sort, s))
    ensures Ties(sort, StableSort(sort, s), y) == Ties(sort, s, y)
  {
    if s == [] {
    } else {
      StableSortIs(sort, s[1..], y);
      var sorted := StableSort(sort, s[1..]);
      InsertPermutes(sort, s[0], sorted);
      InsertOrders(sort, s[0], sorted);
      InsertKeepsTies(sort, s[0], sorted, y);
      TiesCons(sort, s[0], sorted, y);
      assert s == [s[0]] + s[1..];
    }
  }

  // ----- one group at a time

  /** The number of leading entries with the grouping value of the first; all of them without a grouping attribute. */
  function GroupLength(grouping: Option<string>, s: seq<Entry>): (n: nat)
    requires s != []
    ensures 1 <= n <= |s|
  {
    if grouping.None? then |s|
    else if |s| == 1 || AttributeValue(s[1], grouping.value) != AttributeValue(s[0], grouping.value) then 1
    else 1 + GroupLength(grouping, s[1..])
  }

  lemma {:induction false} GroupIs(attribute: string, s: seq<Entry>, value: Value, n: nat)
    requires 1 <= n <= |s|
    requires forall i :: 0 <= i < n ==> AttributeValue(s[i], attribute) == value
    requires n < |s| ==> AttributeValue(s[n], attribute) != value
    ensures GroupLength(Some(attribute), s) == n
    decreases n
  {
    if n <= 1 {
    } else {
      GroupIs(attribute, s[1..], value, n - 1);
    }
  }

  lemma {:induction false} GroupHasOneValue(attribute: string, s: seq<Entry>)
    requires s != []
    ensures var n := GroupLength(Some(attribute), s);
            && (forall i :: 0 <= i < n ==> AttributeValue(s[i], attribute) == AttributeValue(s[0], attribute))
            && (n < |s| ==> AttributeValue(s[n], attribute) != AttributeValue(s[0], attribute))
  {
    if |s| == 1 || AttributeValue(s[1], attribute) != AttributeValue(s[0], attribute) {
    } else {
      GroupHasOneValue(attribute, s[1..]);
      var n := GroupLength(Some(attribute), s);
      forall i | 0 <= i < n
        ensures AttributeValue(s[i], attribute) == AttributeValue(s[0], attribute)
      {
        assert i > 0 ==> s[i] == s[1..][i - 1];
      }
      assert n < |s| ==> s[n] == s[1..][n - 1];
    }
  }

  function GroupSorted(grouping: Option<string>, sort: seq<Criterion>, s: seq<Entry>): seq<Entry>
    decreases |s|
  {
    if s == [] then []
    else
      var n := GroupLength(grouping, s);
      StableSort(sort, s[..n]) + GroupSorted(grouping, sort, s[n..])
  }

  lemma FirstTaken(group: seq<Entry>, after: seq<Entry>)
    requires group != []
    ensures group + after != [] && (group + after)[0] == group[0] && (group + after)[1..] == group[1..] + after
  {
  }

  /** The iterator, one `next` call after another. */
  class OrderedIterator {
    const source: seq<Entry>
    const grouping: Option<string>
    const sort: seq<Criterion>
    var position: nat                        // of the database iterator
    var dbDone: bool
    var sortedArray: seq<Entry>              // what is left of the current sorted group
    var enqueuedEntryForNextGroup: Option<Entry>
    var lastGroupingValue: Value
    var firstEntry: bool

    constructor (source: seq<Entry>, grouping: Option<string>, sort: seq<Criterion>)
      ensures Valid() && Pending() == GroupSorted(grouping, sort, source)
    {
      this.source, this.grouping, this.sort := source, grouping, sort;
      position, dbDone, sortedArray := 0, false, [];
      enqueuedEntryForNextGroup, lastGroupingValue, firstEntry := None, Undefined, true;
      new;
      assert [] + this.source[0..] == this.source;
      assert [] + GroupSorted(grouping, sort, source) == GroupSorted(grouping, sort, source);
    }

    ghost predicate Valid()
      reads this
    {
      && position <= |source|
      && (!dbDone && position == 0 ==> firstEntry && enqueuedEntryForNextGroup.None?)
      && (!dbDone && position > 0 ==>
            (grouping.Some? && !firstEntry && enqueuedEntryForNextGroup.Some?
             && lastGroupingValue == AttributeValue(enqueuedEntryForNextGroup.value, grouping.value)))
    }

    /** The entries that have not been put in a sorted group yet. */
    function Rest(): seq<Entry>
      reads this
      requires position <= |source|
    {
      if dbDone then []
      else (if enqueuedEntryForNextGroup.Some? then [enqueuedEntryForNextGroup.value] else []) + source[position..]
    }

    /** All that is still to be emitted. */
    function Pending(): seq<Entry>
      reads this
      requires position <= |source|
    {
      sortedArray + GroupSorted(grouping, sort, Rest())
    }

    /** Read entries up to the end of the group, leaving the first of the next one for later. */
    method LoadGroup() returns (ordered: seq<Entry>)
      requires Valid() && !dbDone && sortedArray == []
      modifies this
      ensures Valid() && sortedArray == []
      ensures old(Rest()) == ordered + Rest()
      ensures ordered == [] ==> old(Rest()) == []
      ensures ordered != [] ==> |ordered| == GroupLength(grouping, old(Rest()))
    {
      ghost var rest := Rest();
      ordered := if enqueuedEntryForNextGroup.Some? then [enqueuedEntryForNextGroup.value] else [];
      var at, first, last := position, firstEntry, lastGroupingValue;
      while at < |source|
        invariant at <= |source| && ordered + source[at..] == rest
        invariant first <==> (grouping.None? || ordered == [])
        invariant grouping.Some? ==> forall i :: 0 <= i < |ordered| ==> AttributeValue(ordered[i], grouping.value) == last
      {
        var entry := source[at];
        at := at + 1;
        assert source[at - 1..] == [entry] + source[at..];
        if grouping.Some? {
          var groupingValue := AttributeValue(entry, grouping.value);
          if first {
            first, last := false, groupingValue;
          } else if groupingValue != last {
            assert rest[|ordered|] == entry;
            GroupIs(grouping.value, rest, last, |ordered|);
            position, firstEntry, lastGroupingValue := at, false, groupingValue;
            enqueuedEntryForNextGroup := Some(entry);
            return;
          }
        }
        ordered := ordered + [entry];
      }
      assert ordered == rest == ordered + [];
      if grouping.Some? && ordered != [] {
        GroupIs(grouping.value, rest, last, |rest|);
      }
      position, firstEntry, lastGroupingValue, dbDone := at, first, last, true;
    }

    /** Sort the next group; what is pending does not change. */
    method SortNextGroup()
      requires Valid() && !dbDone && sortedArray == []
      modifies this
      ensures Valid() && Pending() == old(Pending())
      ensures sortedArray == [] ==> Pending() == []
    {
      ghost var rest := Rest();
      assert Pending() == GroupSorted(grouping, sort, rest);
      var ordered := LoadGroup();
      if ordered != [] {
        assert rest[..|ordered|] == ordered && rest[|ordered|..] == Rest();
        sortedArray := StableSort(sort, ordered);
        StableSortIs(sort, ordered, ordered[0]);
        assert ordered[0] in multiset(sortedArray);
      }
    }

    method Next() returns (entry: Option<Entry>)
      requires Valid()
      modifies this
      ensures Valid()
      ensures entry.None? <==> old(Pending()) == []
      ensures entry.None? ==> Pending() == []
      ensures entry.Some? ==> entry.value == old(Pending())[0] && Pending() == old(Pending())[1..]
    {
      if sortedArray == [] {
        if dbDone {
          return None;
        }
        SortNextGroup();
        if sortedArray == [] {
          return None;
        }
      }
      FirstTaken(sortedArray, GroupSorted(grouping, sort, Rest()));
      entry := Some(sortedArray[0]);
      sortedArray := sortedArray[1..];
    }
  }

  // ----- group by group is the whole sort

  /** Every input entry is emitted exactly once, whatever the input order. */
  lemma {:induction false} EmitsEachOnce(grouping: Option<string>, sort: seq<Criterion>, s: seq<Entry>)
    ensures multiset(GroupSorted(grouping, sort, s)) == multiset(s)
    decreases |s|
  {
    if s == [] {
    } else {
      var n := GroupLength(grouping, s);
      StableSortIs(sort, s[..n], s[0]);
      EmitsEachOnce(grouping, sort, s[n..]);
      assert s == s[..n] + s[n..];
    }
  }

  lemma {:induction false} InsertLeft(sort: seq<Criterion>, x: Entry, a: seq<Entry>, b: seq<Entry>)
    requires forall j :: 0 <= j < |b| ==> Compare(sort, x, b[j]) < 0
    ensures Insert(sort, x, a + b) == Insert(sort, x, a) + b
    decreases |a|
  {
    if a == [] {
      assert a + b == b;
    } else {
      assert (a + b)[1..] == a[1..] + b;
      InsertLeft(sort, x, a[1..], b);
    }
  }

  predicate AllBefore(sort: seq<Criterion>, a: seq<Entry>, b: seq<Entry>) {
    forall i, j :: 0 <= i < |a| && 0 <= j < |b| ==> Compare(sort, a[i], b[j]) < 0
  }

  lemma BeforeSorted(sort: seq<Criterion>, x: Entry, b: seq<Entry>)
    requires forall j :: 0 <= j < |b| ==> Compare(sort, x, b[j]) < 0
    ensures forall j :: 0 <= j < |StableSort(sort, b)| ==> Compare(sort, x, StableSort(sort, b)[j]) < 0
  {
    var sorted := StableSort(sort, b);
    StableSortIs(sort, b, x);
    forall j | 0 <= j < |sorted|
      ensures Compare(sort, x, sorted[j]) < 0
    {
      assert sorted[j] in multiset(sorted);
      assert sorted[j] in b;
    }
  }

  /** Sorting splits where everything on the left comes strictly before everything on the right. */
  lemma {:induction false} SortSplits(sort: seq<Criterion>, a: seq<Entry>, b: seq<Entry>)
    requires AllBefore(sort, a, b)
    ensures StableSort(sort, a + b) == StableSort(sort, a) + StableSort(sort, b)
    decreases |a|
  {
    if a == [] {
      assert a + b == b;
    } else {
      assert (a + b)[1..] == a[1..] + b;
      SortSplits(sort, a[1..], b);
      BeforeSorted(sort, a[0], b);
      InsertLeft(sort, a[0], StableSort(sort, a[1..]), StableSort(sort, b));
    }
  }

  predicate OneValue(attribute: string, s: seq<Entry>) {
    forall i, j :: 0 <= i < |s| && 0 <= j < |s| ==> AttributeValue(s[i], attribute) == AttributeValue(s[j], attribute)
  }

  lemma {:induction false} InsertInGroup(c: Criterion, sort: seq<Criterion>, x: Entry, s: seq<Entry>)
    requires forall i :: 0 <= i < |s| ==> AttributeValue(s[i], c.attribute) == AttributeValue(x, c.attribute)
    ensures Insert([c] + sort, x, s) == Insert(sort, x, s)
    decreases |s|
  {
    if s == [] {
    } else {
      DifferenceProperties(c, x, s[0], s[0]);
      assert ([c] + sort)[1..] == sort;
      InsertInGroup(c, sort, x, s[1..]);
    }
  }

  /** Within a group the first criterion makes no difference. */
  lemma {:induction false} SortInGroup(c: Criterion, sort: seq<Criterion>, s: seq<Entry>)
    requires OneValue(c.attribute, s)
    ensures StableSort([c] + sort, s) == StableSort(sort, s)
  {
    if s == [] {
    } else {
      assert OneValue(c.attribute, s[1..]);
      SortInGroup(c, sort, s[1..]);
      var sorted := StableSort(sort, s[1..]);
      StableSortIs(sort, s[1..], s[0]);
      forall i | 0 <= i < |sorted|
        ensures AttributeValue(sorted[i], c.attribute) == AttributeValue(s[0], c.attribute)
      {
        assert sorted[i] in multiset(sorted);
        assert sorted[i] in s[1..];
      }
      InsertInGroup(c, sort, s[0], sorted);
    }
  }

  lemma GroupComesFirst(c: Criterion, sort: seq<Criterion>, s: seq<Entry>)
    requires s != [] && Ordered([c], s)
    ensures var n := GroupLength(Some(c.attribute), s);
            AllBefore([c] + sort, s[..n], s[n..]) && OneValue(c.attribute, s[..n])
  {
    var n := GroupLength(Some(c.attribute), s);
    GroupHasOneValue(c.attribute, s);
    forall i, j | 0 <= i < n && n <= j < |s|
      ensures Compare([c] + sort, s[i], s[j]) < 0
    {
      assert ([c] + sort)[0] == c;
      assert Compare([c], s[n], s[j]) <= 0 || n == j;
      assert Compare([c], s[i], s[n]) <= 0;
      DifferenceProperties(c, s[i], s[n], s[j]);
      DifferenceProperties(c, s[n], s[j], s[i]);
      DifferenceProperties(c, s[j], s[n], s[i]);
      DifferenceProperties(c, s[i], s[j], s[n]);
    }
  }

  /** One group, and the rest after it. */
  lemma SortGroupFirst(c: Criterion, sort: seq<Criterion>, group: seq<Entry>, rest: seq<Entry>)
    requires AllBefore([c] + sort, group, rest) && OneValue(c.attribute, group)
    ensures StableSort([c] + sort, group + rest) == StableSort(sort, group) + StableSort([c] + sort, rest)
  {
    SortSplits([c] + sort, group, rest);
    SortInGroup(c, sort, group);
  }

  lemma OrderedDrop(sort: seq<Criterion>, s: seq<Entry>, n: nat)
    requires Ordered(sort, s) && n <= |s|
    ensures Ordered(sort, s[n..])
  {
  }

  /**
   When the input comes ordered on the grouping attribute, the group-at-a-time stream is the stable
   sort of the whole input by that attribute and then by the remaining sort.
   */
  lemma {:induction false} StreamIsWholeSort(c: Criterion, sort: seq<Criterion>, s: seq<Entry>)
    requires Ordered([c], s)
    ensures GroupSorted(Some(c.attribute), sort, s) == StableSort([c] + sort, s)
    decreases |s|
  {
    if s == [] {
    } else {
      var n := GroupLength(Some(c.attribute), s);
      var group, rest := s[..n], s[n..];
      assert s == group + rest;
      GroupComesFirst(c, sort, s);
      SortGroupFirst(c, sort, group, rest);
      OrderedDrop([c], s, n);
      StreamIsWholeSort(c, sort, rest);
    }
  }
}
