/**
 The table by which blobs are spread over storage paths in proportion to their available space
 (`createFrequencyTableForStoragePaths` in resources/blob.ts), in exact arithmetic.
 */
module FrequencyTable {
  const FREQUENCY_TABLE_SIZE: nat := 128

  predicate Spaces(s: seq<real>) {
    |s| > 0 && forall i :: 0 <= i < |s| ==> s[i] >= 0.0
  }

  // ----- repeated addition

  /** `s` added up `c` times. */
  function Times(c: nat, s: real): real {
    if c == 0 then 0.0 else Times(c - 1, s) + s
  }

  lemma {:induction false} TimesIsProduct(c: nat, s: real)
    ensures Times(c, s) == c as real * s
  {
    if c == 0 {
    } else {
      TimesIsProduct(c - 1, s);
    }
  }

  lemma {:induction false} TimesOfSum(c: nat, s: real, t: real)
    ensures Times(c, s + t) == Times(c, s) + Times(c, t)
  {
    if c == 0 {
    } else {
      TimesOfSum(c - 1, s, t);
    }
  }

  lemma {:induction false} SumOfTimes(c: nat, d: nat, s: real)
    ensures Times(c + d, s) == Times(c, s) + Times(d, s)
  {
    if d == 0 {
    } else {
      SumOfTimes(c, d - 1, s);
    }
  }

  lemma Distribute(a: real, b: real, k: real)
    ensures (a + b) * k == a * k + b * k
  {
  }

  lemma {:induction false} TimesScaled(c: nat, s: real, k: real)
    ensures Times(c, s) * k == Times(c, s * k)
  {
    if c == 0 {
      assert 0.0 * k == 0.0;
    } else {
      TimesScaled(c - 1, s, k);
      Distribute(Times(c - 1, s), s, k);
    }
  }

  lemma {:induction false} TimesNonNegative(c: nat, s: real)
    requires s >= 0.0
    ensures Times(c, s) >= 0.0
  {
    if c == 0 {
    } else {
      TimesNonNegative(c - 1, s);
    }
  }

  lemma Quotient(a: real, b: real)
    requires b > 0.0
    ensures a / b * b == a
  {
  }

  lemma Associate(a: real, b: real, c: real)
    ensures a * (b * c) == (a * b) * c
  {
  }

  lemma Scale(a: real, b: real, k: real)
    requires a <= b && k >= 0.0
    ensures a * k <= b * k
  {
  }

  lemma Cancel(u: real, s: real, t: real, k: real)
    requires u * s == 1.0 && k == s * t
    ensures u * k == t
  {
    Associate(u, s, t);
    assert (u * s) * t == 1.0 * t;
  }

  lemma CommonMultiple(s: real, t: real, u: real, v: real) returns (k: real)
    requires s > 0.0 && t > 0.0 && u * s == 1.0 && v * t == 1.0
    ensures k >= 0.0 && u * k == t && v * k == s
  {
    k := s * t;
    Cancel(u, s, t, k);
    Cancel(v, t, s, k);
  }

  lemma ScaleTimes(c: nat, d: nat, u: real, v: real, k: real)
    requires k >= 0.0 && Times(c, u) <= Times(d, v)
    ensures Times(c, u * k) <= Times(d, v * k)
  {
    Scale(Times(c, u), Times(d, v), k);
    TimesScaled(c, u, k);
    TimesScaled(d, v, k);
  }

  /** Comparing multiples of `1 / s` with multiples of `1 / t` compares multiples of `t` with multiples of `s`. */
  lemma CrossMultiply(c: nat, d: nat, s: real, t: real)
    requires s > 0.0 && t > 0.0 && Times(c, 1.0 / s) <= Times(d, 1.0 / t)
    ensures Times(c, t) <= Times(d, s)
  {
    var u, v := 1.0 / s, 1.0 / t;
    Quotient(1.0, s);
    Quotient(1.0, t);
    var k := CommonMultiple(s, t, u, v);
    ScaleTimes(c, d, u, v, k);
  }

  // ----- the greedy choice

  /** A multiple of `1 / space`; that of a full path is infinite. */
  datatype Period = Finite(length: real) | Infinite

  predicate Less(a: Period, b: Period) {
    a.Finite? && (b.Finite? ==> a.length < b.length)
  }

  function Count(table: seq<nat>, path: nat): nat {
    if table == [] then 0
    else Count(table[..|table| - 1], path) + if table[|table| - 1] == path then 1 else 0
  }

  /** The period that a path has reached: one more than it has been chosen. */
  function PathPeriod(space: real, count: nat): Period
    requires space >= 0.0
  {
    if space == 0.0 then Infinite else Finite(Times(count + 1, 1.0 / space))
  }

  ghost function PathPeriods(spaces: seq<real>, table: seq<nat>): seq<Period>
    requires Spaces(spaces)
  {
    seq(|spaces|, j requires 0 <= j < |spaces| => PathPeriod(spaces[j], Count(table, j)))
  }

  /** The first path with the lowest period among the first `k`, and that period. */
  function Lowest(spaces: seq<real>, table: seq<nat>, k: nat): (nat, Period)
    requires Spaces(spaces) && k <= |spaces|
  {
    if k == 0 then (0, Infinite)
    else
      var best, period := Lowest(spaces, table, k - 1), PathPeriod(spaces[k - 1], Count(table, k - 1));
      if Less(period, best.1) then (k - 1, period) else best
  }

  /** The first `n` entries of the table. */
  function Table(spaces: seq<real>, n: nat): seq<nat>
    requires Spaces(spaces)
  {
    if n == 0 then []
    else
      var table := Table(spaces, n - 1);
      table + [Lowest(spaces, table, |spaces|).0]
  }

  /** Adding `1 / space` once more. */
  function Longer(p: Period, space: real): Period
    requires space >= 0.0
  {
    if p.Infinite? || space == 0.0 then Infinite else Finite(p.length + 1.0 / space)
  }

  lemma LongerIsNext(space: real, count: nat)
    requires space >= 0.0
    ensures Longer(PathPeriod(space, count), space) == PathPeriod(space, count + 1)
  {
  }

  lemma CountGrows(table: seq<nat>, choice: nat, path: nat)
    ensures Count(table + [choice], path) == Count(table, path) + if choice == path then 1 else 0
  {
    assert (table + [choice])[..|table|] == table;
  }

  lemma ChoiceLengthensPeriod(spaces: seq<real>, table: seq<nat>, b: nat)
    requires Spaces(spaces) && b < |spaces|
    ensures var periods := PathPeriods(spaces, table);
            PathPeriods(spaces, table + [b]) == periods[b := Longer(periods[b], spaces[b])]
  {
    LongerIsNext(spaces[b], Count(table, b));
    forall j | 0 <= j < |spaces|
      ensures Count(table + [b], j) == Count(table, j) + if b == j then 1 else 0
    {
      CountGrows(table, b, j);
    }
  }

  method LowestPeriod(availableSpaces: seq<real>, pathPeriods: array<Period>, ghost table: seq<nat>)
      returns (nextIndex: nat)
    requires Spaces(availableSpaces) && pathPeriods[..] == PathPeriods(availableSpaces, table)
    ensures nextIndex < |availableSpaces| && nextIndex == Lowest(availableSpaces, table, |availableSpaces|).0
  {
    assert pathPeriods.Length == |pathPeriods[..]| == |availableSpaces|;
    var nextScore := Infinite;
    nextIndex := 0;
    for j := 0 to pathPeriods.Length
      invariant (nextIndex, nextScore) == Lowest(availableSpaces, table, j) && nextIndex < |availableSpaces|
    {
      assert pathPeriods[j] == pathPeriods[..][j];
      if Less(pathPeriods[j], nextScore) {
        nextIndex, nextScore := j, pathPeriods[j];
      }
    }
  }

  method CreateFrequencyTable(availableSpaces: seq<real>) returns (frequencyTable: array<nat>)
    requires Spaces(availableSpaces)
    ensures frequencyTable[..] == Table(availableSpaces, FREQUENCY_TABLE_SIZE) && frequencyTable.Length == 128
  {
    frequencyTable := new nat[FREQUENCY_TABLE_SIZE];
    var pathPeriods := new Period[|availableSpaces|](
      i requires 0 <= i < |availableSpaces| => PathPeriod(availableSpaces[i], 0));
    assert pathPeriods[..] == PathPeriods(availableSpaces, []);
    for i := 0 to FREQUENCY_TABLE_SIZE
      invariant frequencyTable[..i] == Table(availableSpaces, i)
      invariant pathPeriods[..] == PathPeriods(availableSpaces, Table(availableSpaces, i))
    {
      ghost var table := Table(availableSpaces, i);
      var nextIndex := LowestPeriod(availableSpaces, pathPeriods, table);
      ChoiceLengthensPeriod(availableSpaces, table, nextIndex);
      pathPeriods[nextIndex] := Longer(pathPeriods[nextIndex], availableSpaces[nextIndex]);
      frequencyTable[i] := nextIndex;
      assert frequencyTable[..i + 1] == frequencyTable[..i] + [nextIndex];
    }
  }

  lemma {:induction false} LowestIs(spaces: seq<real>, table: seq<nat>, k: nat)
    requires Spaces(spaces) && k <= |spaces|
    ensures var (index, score) := Lowest(spaces, table, k);
            && index < |spaces|
            && (forall j :: 0 <= j < k ==> !Less(PathPeriod(spaces[j], Count(table, j)), score))
            && (score.Finite? ==> score == PathPeriod(spaces[index], Count(table, index)))
            && (forall j :: 0 <= j < index ==> Less(score, PathPeriod(spaces[j], Count(table, j))))
  {
    if k == 0 {
    } else {
      LowestIs(spaces, table, k - 1);
    }
  }

  // ----- fairness

  predicate FairTo(spaces: seq<real>, table: seq<nat>, i: nat, j: nat)
    requires i < |spaces| && j < |spaces|
  {
    Times(Count(table, i), spaces[j]) <= Times(Count(table, j) + 1, spaces[i])
  }

  /** Each path has been chosen at most as often as its share allows, up to one choice of any other path. */
  predicate Fair(spaces: seq<real>, table: seq<nat>)
    requires Spaces(spaces)
  {
    forall i, j :: 0 <= i < |spaces| && 0 <= j < |spaces| && spaces[i] > 0.0 ==> FairTo(spaces, table, i, j)
  }

  /** The chosen path has the lowest next period, so its next count is still within its share. */
  lemma ChosenIsLowest(spaces: seq<real>, table: seq<nat>, j: nat)
    requires Spaces(spaces) && j < |spaces|
    ensures var b := Lowest(spaces, table, |spaces|).0;
            && b < |spaces|
            && (spaces[b] > 0.0 ==> Times(Count(table, b) + 1, spaces[j]) <= Times(Count(table, j) + 1, spaces[b]))
            && (spaces[j] > 0.0 ==> spaces[b] > 0.0)
  {
    LowestIs(spaces, table, |spaces|);
    var b := Lowest(spaces, table, |spaces|).0;
    var c, d := Count(table, b) + 1, Count(table, j) + 1;
    assert !Less(PathPeriod(spaces[j], Count(table, j)), Lowest(spaces, table, |spaces|).1);
    assert !Less(PathPeriod(spaces[b], Count(table, b)), Lowest(spaces, table, |spaces|).1);
    if spaces[b] > 0.0 && spaces[j] > 0.0 {
      CrossMultiply(c, d, spaces[b], spaces[j]);
    } else if spaces[b] > 0.0 {
      TimesIsProduct(c, 0.0);
      TimesNonNegative(d, spaces[b]);
    }
  }

  lemma FairAfterChoice(spaces: seq<real>, table: seq<nat>, i: nat, j: nat)
    requires Spaces(spaces) && Fair(spaces, table) && i < |spaces| && j < |spaces| && spaces[i] > 0.0
    ensures FairTo(spaces, table + [Lowest(spaces, table, |spaces|).0], i, j)
  {
    var b := Lowest(spaces, table, |spaces|).0;
    CountGrows(table, b, i);
    CountGrows(table, b, j);
    ChosenIsLowest(spaces, table, j);
    assert FairTo(spaces, table, i, j);
  }

  lemma {:induction false} TableEntries(spaces: seq<real>, n: nat)
    requires Spaces(spaces)
    ensures |Table(spaces, n)| == n && forall k :: 0 <= k < n ==> Table(spaces, n)[k] < |spaces|
  {
    if n == 0 {
    } else {
      TableEntries(spaces, n - 1);
      LowestIs(spaces, Table(spaces, n - 1), |spaces|);
    }
  }

  /** Every prefix of the table is fair. */
  lemma {:induction false} TableIsFair(spaces: seq<real>, n: nat)
    requires Spaces(spaces)
    ensures Fair(spaces, Table(spaces, n))
  {
    if n == 0 {
      forall i, j | 0 <= i < |spaces| && 0 <= j < |spaces| && spaces[i] > 0.0
        ensures FairTo(spaces, [], i, j)
      {
      }
    } else {
      TableIsFair(spaces, n - 1);
      var table := Table(spaces, n - 1);
      forall i, j | 0 <= i < |spaces| && 0 <= j < |spaces| && spaces[i] > 0.0
        ensures FairTo(spaces, Table(spaces, n), i, j)
      {
        FairAfterChoice(spaces, table, i, j);
      }
    }
  }

  /** A full path is never chosen while another one has space. */
  lemma {:induction false} FullPathNeverChosen(spaces: seq<real>, n: nat, full: nat, other: nat)
    requires Spaces(spaces) && full < |spaces| && other < |spaces| && spaces[full] == 0.0 && spaces[other] > 0.0
    ensures Count(Table(spaces, n), full) == 0
  {
    if n == 0 {
    } else {
      FullPathNeverChosen(spaces, n - 1, full, other);
      var table := Table(spaces, n - 1);
      ChosenIsLowest(spaces, table, other);
      CountGrows(table, Lowest(spaces, table, |spaces|).0, full);
    }
  }

  // ----- proportional shares

  function SpaceSum(spaces: seq<real>, k: nat): real
    requires k <= |spaces|
  {
    if k == 0 then 0.0 else SpaceSum(spaces, k - 1) + spaces[k - 1]
  }

  function CountSum(table: seq<nat>, k: nat): nat {
    if k == 0 then 0 else CountSum(table, k - 1) + Count(table, k - 1)
  }

  lemma {:induction false} CountSumGrows(table: seq<nat>, choice: nat, k: nat)
    ensures CountSum(table + [choice], k) == CountSum(table, k) + if choice < k then 1 else 0
  {
    if k == 0 {
    } else {
      CountSumGrows(table, choice, k - 1);
      CountGrows(table, choice, k - 1);
    }
  }

  lemma {:induction false} NoCounts(k: nat)
    ensures CountSum([], k) == 0
  {
    if k == 0 {
    } else {
      NoCounts(k - 1);
    }
  }

  /** Every entry of the table counts for some path. */
  lemma {:induction false} CountsAddUp(table: seq<nat>, m: nat)
    requires forall k :: 0 <= k < |table| ==> table[k] < m
    ensures CountSum(table, m) == |table|
  {
    if table == [] {
      NoCounts(m);
    } else {
      var front := table[..|table| - 1];
      CountsAddUp(front, m);
      CountSumGrows(front, table[|table| - 1], m);
      assert table == front + [table[|table| - 1]];
    }
  }

  lemma {:induction false} AtMostShare(spaces: seq<real>, table: seq<nat>, i: nat, k: nat)
    requires Spaces(spaces) && Fair(spaces, table) && i < |spaces| && spaces[i] > 0.0 && k <= |spaces|
    ensures Times(Count(table, i), SpaceSum(spaces, k))
            <= Times(CountSum(table, k) + k, spaces[i]) - if i < k then spaces[i] else 0.0
  {
    if k == 0 {
      TimesIsProduct(Count(table, i), 0.0);
    } else {
      var j := k - 1;
      AtMostShare(spaces, table, i, j);
      TimesOfSum(Count(table, i), SpaceSum(spaces, j), spaces[j]);
      SumOfTimes(CountSum(table, j) + j, Count(table, j) + 1, spaces[i]);
      assert CountSum(table, k) + k == CountSum(table, j) + j + (Count(table, j) + 1);
      assert FairTo(spaces, table, i, j);
      assert Times(Count(table, i) + 1, spaces[i]) == Times(Count(table, i), spaces[i]) + spaces[i];
    }
  }

  lemma {:induction false} AtLeastShare(spaces: seq<real>, table: seq<nat>, i: nat, k: nat)
    requires Spaces(spaces) && Fair(spaces, table) && i < |spaces| && spaces[i] > 0.0 && k <= |spaces|
    requires forall j :: 0 <= j < |spaces| && spaces[j] == 0.0 ==> Count(table, j) == 0
    ensures Times(CountSum(table, k), spaces[i])
            <= Times(Count(table, i) + 1, SpaceSum(spaces, k)) - if i < k then spaces[i] else 0.0
  {
    if k == 0 {
      TimesIsProduct(Count(table, i) + 1, 0.0);
    } else {
      var j := k - 1;
      AtLeastShare(spaces, table, i, j);
      TimesOfSum(Count(table, i) + 1, SpaceSum(spaces, j), spaces[j]);
      SumOfTimes(CountSum(table, j), Count(table, j), spaces[i]);
      TimesNonNegative(Count(table, i) + 1, spaces[j]);
      assert spaces[j] > 0.0 ==> FairTo(spaces, table, j, i);
      assert Times(Count(table, i) + 1, spaces[i]) == Times(Count(table, i), spaces[i]) + spaces[i];
    }
  }

  /**
   In every prefix of the table a path with space has its proportional share of the choices:
   less than one below it, and above it by no more than the number of other paths allows.
   */
  lemma ProportionalShare(spaces: seq<real>, n: nat, i: nat)
    requires Spaces(spaces) && i < |spaces| && spaces[i] > 0.0
    ensures var count, total := Count(Table(spaces, n), i), SpaceSum(spaces, |spaces|);
            && Times(n + 1, spaces[i]) <= Times(count + 1, total)
            && Times(count, total) <= Times(n + |spaces| - 1, spaces[i])
  {
    var table, m := Table(spaces, n), |spaces|;
    TableIsFair(spaces, n);
    TableEntries(spaces, n);
    CountsAddUp(table, m);
    forall j | 0 <= j < m && spaces[j] == 0.0
      ensures Count(table, j) == 0
    {
      FullPathNeverChosen(spaces, n, j, i);
    }
    AtMostShare(spaces, table, i, m);
    AtLeastShare(spaces, table, i, m);
  }

  // ----- ties

  /** The other way round: comparing multiples of the spaces compares the periods. */
  lemma CrossBack(c: nat, d: nat, s: real, t: real)
    requires s > 0.0 && t > 0.0 && Times(d, s) <= Times(c, t)
    ensures Times(d, 1.0 / t) <= Times(c, 1.0 / s)
  {
    var u, v := 1.0 / s, 1.0 / t;
    Quotient(1.0, s);
    Quotient(1.0, t);
    var k := CommonMultiple(u, v, s, t);
    ScaleTimes(d, c, s, t, k);
  }

  lemma PositiveProduct(d: nat, s: real)
    requires d > 0 && s > 0.0
    ensures d as real * s > 0.0
  {
  }

  /**
   On a tie the first path is taken: every path before the chosen one would have been strictly worse. And as long as no
   path has any space, it is the very first.
   */
  lemma FirstPathOnTie(spaces: seq<real>, n: nat, j: nat)
    requires Spaces(spaces) && j < |spaces|
    ensures var table := Table(spaces, n);
            var b := Lowest(spaces, table, |spaces|).0;
            && Table(spaces, n + 1) == table + [b] && b < |spaces|
            && (j < b ==> spaces[b] > 0.0)
            && (j < b ==> Times(Count(table, b) + 1, spaces[j]) < Times(Count(table, j) + 1, spaces[b]))
  {
    var table := Table(spaces, n);
    var (b, score) := Lowest(spaces, table, |spaces|);
    LowestIs(spaces, table, |spaces|);
    if j < b {
      var c, d := Count(table, b) + 1, Count(table, j) + 1;
      assert Less(score, PathPeriod(spaces[j], Count(table, j)));
      if spaces[j] > 0.0 {
        if Times(d, spaces[b]) <= Times(c, spaces[j]) {
          CrossBack(c, d, spaces[b], spaces[j]);
        }
      } else {
        TimesIsProduct(c, spaces[j]);
        TimesIsProduct(d, spaces[b]);
        PositiveProduct(d, spaces[b]);
      }
    }
  }

  lemma {:induction false} NoSpaceLowest(spaces: seq<real>, table: seq<nat>, k: nat)
    requires Spaces(spaces) && k <= |spaces| && forall j :: 0 <= j < |spaces| ==> spaces[j] == 0.0
    ensures Lowest(spaces, table, k) == (0, Infinite)
  {
    if k == 0 {
    } else {
      NoSpaceLowest(spaces, table, k - 1);
    }
  }

  lemma {:induction false} NoSpaceIsFirst(spaces: seq<real>, n: nat, i: nat)
    requires Spaces(spaces) && (forall j :: 0 <= j < |spaces| ==> spaces[j] == 0.0)
    ensures |Table(spaces, n)| == n && (i < n ==> Table(spaces, n)[i] == 0)
  {
    if n == 0 {
    } else {
      var table := Table(spaces, n - 1);
      NoSpaceIsFirst(spaces, n - 1, i);
      NoSpaceLowest(spaces, table, |spaces|);
    }
  }
}
