/**
 Where a write belongs among the writes of one record: by its timestamp, and on a tie by the name of its node.
 */
module Places {
  import Ordering
  import opened Wrappers
  import opened Versions
  import opened Timelines

  ghost predicate Named(names: map<string, int>, w: Write) {
    exists name :: name in names && names[name] == w.nodeId
  }

  ghost function Name(names: map<string, int>, w: Write): (name: string)
    requires Named(names, w)
    ensures name in names && names[name] == w.nodeId && NameOf(names, Some(w.nodeId)) == Some(name)
  {
    NameOf(names, Some(w.nodeId)).value
  }

  function Below(names: map<string, int>, name: string): set<string> {
    set n | n in names && Ordering.TextLess(n, name)
  }

  lemma {:induction false} SubsetSize<T>(a: set<T>, b: set<T>)
    requires a <= b
    ensures |a| <= |b|
    decreases a
  {
    if a == {} {
    } else {
      var x := Pick(a);
      SubsetSize(a - {x}, b - {x});
    }
  }

  lemma StrictSubset<T>(a: set<T>, b: set<T>, x: T)
    requires a <= b && x in b && x !in a
    ensures |a| < |b|
  {
    assert a <= b - {x};
    SubsetSize(a, b - {x});
  }

  lemma BelowGrows(names: map<string, int>, a: string, b: string)
    requires a in names && Ordering.TextLess(a, b)
    ensures |Below(names, a)| < |Below(names, b)|
  {
    forall n | n in Below(names, a)
      ensures n in Below(names, b)
    {
      Ordering.TextLessTransitive(n, a, b);
    }
    Ordering.TextLessIrreflexive(a);
    StrictSubset(Below(names, a), Below(names, b), a);
  }

  lemma BelowOrder(names: map<string, int>, a: string, b: string)
    requires a in names && b in names
    ensures |Below(names, a)| < |names|
    ensures |Below(names, a)| < |Below(names, b)| <==> Ordering.TextLess(a, b)
  {
    Ordering.TextLessIrreflexive(a);
    Ordering.TextLessTrichotomy(a, b);
    StrictSubset(Below(names, a), names.Keys, a);
    if Ordering.TextLess(a, b) {
      BelowGrows(names, a, b);
    } else if a != b {
      BelowGrows(names, b, a);
    }
  }

  ghost function Rank(names: map<string, int>, w: Write): nat {
    if Named(names, w) then |Below(names, Name(names, w))| else |names|
  }

  lemma RankBound(names: map<string, int>, w: Write)
    ensures Rank(names, w) <= |names|
  {
    if Named(names, w) {
      BelowOrder(names, Name(names, w), Name(names, w));
    }
  }

  /** Nodes without a name are last; no two of them may write at one time. */
  ghost function Place(names: map<string, int>, w: Write): int {
    w.time * (|names| + 1) + Rank(names, w)
  }

  ghost predicate Before(names: map<string, int>, a: Write, b: Write)
    requires Named(names, a) && Named(names, b)
  {
    a.time < b.time || (a.time == b.time && Ordering.TextLess(Name(names, a), Name(names, b)))
  }

  lemma EarlierPlace(s: int, i: nat, t: int, j: nat, n: nat)
    requires s < t && i < n && j < n
    ensures s * n + i < t * n + j
  {
    assert (s + 1) * n <= t * n;
  }

  /** Whatever the nodes, earlier writes have earlier places. */
  lemma PlaceByTime(names: map<string, int>, a: Write, b: Write)
    ensures a.time < b.time ==> Place(names, a) < Place(names, b)
  {
    if a.time < b.time {
      RankBound(names, a);
      RankBound(names, b);
      EarlierPlace(a.time, Rank(names, a), b.time, Rank(names, b), |names| + 1);
    }
  }

  /** Places of named nodes are in the order of timestamps and then node names; only writes of one stamp share a place. */
  lemma PlaceOrder(names: map<string, int>, a: Write, b: Write)
    requires Named(names, a) && Named(names, b)
    ensures Place(names, a) < Place(names, b) <==> Before(names, a, b)
    ensures Place(names, a) == Place(names, b) <==> a.time == b.time && a.nodeId == b.nodeId
  {
    var x, y := Name(names, a), Name(names, b);
    PlaceByTime(names, a, b);
    PlaceByTime(names, b, a);
    BelowOrder(names, x, y);
    BelowOrder(names, y, x);
    Ordering.TextLessTrichotomy(x, y);
    Ordering.TextLessIrreflexive(x);
  }

  // ----- logs

  /** A log holds each write at its place. */
  ghost predicate Placed(names: map<string, int>, log: map<int, Write>) {
    forall p :: p in log ==> Place(names, log[p]) == p
  }

  lemma PlacedAscends(names: map<string, int>, log: map<int, Write>)
    requires Placed(names, log)
    ensures Ascending(log)
  {
    forall p, q | p in log && q in log && p < q
      ensures log[p].time <= log[q].time
    {
      PlaceByTime(names, log[q], log[p]);
    }
  }
}
