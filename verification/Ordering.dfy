/**
 The order JavaScript's `<` and `>` give to strings: lexicographic by character.
 Node names break timestamp ties by it, and it orders text keys.
 */
module Ordering {

  predicate TextLess(a: string, b: string) {
    b != [] && (a == [] || a[0] < b[0] || (a[0] == b[0] && TextLess(a[1..], b[1..])))
  }

  lemma {:induction false} TextLessIrreflexive(a: string)
    ensures !TextLess(a, a)
  {
    if a == [] {
    } else {
      TextLessIrreflexive(a[1..]);
    }
  }

  lemma {:induction false} TextLessTransitive(a: string, b: string, c: string)
    requires TextLess(a, b) && TextLess(b, c)
    ensures TextLess(a, c)
  {
    if a == [] || a[0] != b[0] || b[0] != c[0] {
    } else {
      TextLessTransitive(a[1..], b[1..], c[1..]);
    }
  }

  /** Exactly one of `a < b`, `a == b` and `a > b` holds. */
  lemma {:induction false} TextLessTrichotomy(a: string, b: string)
    ensures TextLess(a, b) || a == b || TextLess(b, a)
    ensures !(TextLess(a, b) && TextLess(b, a))
  {
    if a == [] || b == [] || a[0] != b[0] {
    } else {
      TextLessTrichotomy(a[1..], b[1..]);
      assert a == [a[0]] + a[1..] && b == [b[0]] + b[1..];
    }
  }

  lemma SameStart(a: string, b: string, k: nat)
    requires k <= |a| && k <= |b| && a[..k] == b[..k]
    ensures k > 0 ==> a[0] == b[0]
  {
    assert k > 0 ==> a[..k][0] == a[0] && b[..k][0] == b[0];
  }

  /** What the order is: at the first difference the smaller character, or else the shorter text, comes first. */
  lemma {:induction false} TextLessMeans(a: string, b: string)
    ensures TextLess(a, b) <==> exists k :: 0 <= k <= |a| && k < |b| && a[..k] == b[..k] && (k == |a| || a[k] < b[k])
  {
    if a == [] || b == [] || a[0] != b[0] {
      if TextLess(a, b) {
        assert a[..0] == b[..0];
      }
      if k :| 0 <= k <= |a| && k < |b| && a[..k] == b[..k] && (k == |a| || a[k] < b[k]) {
        SameStart(a, b, k);
      }
    } else {
      var c, d := a[1..], b[1..];
      TextLessMeans(c, d);
      if k :| 0 <= k <= |c| && k < |d| && c[..k] == d[..k] && (k == |c| || c[k] < d[k]) {
        var l := k + 1;
        assert a[..l] == [a[0]] + c[..k] && b[..l] == [b[0]] + d[..k];
        assert 0 <= l <= |a| && l < |b| && a[..l] == b[..l] && (l == |a| || a[l] < b[l]);
      }
      if k :| 0 <= k <= |a| && k < |b| && a[..k] == b[..k] && (k == |a| || a[k] < b[k]) {
        assert k > 0;
        var l := k - 1;
        assert c[..l] == a[..k][1..] && d[..l] == b[..k][1..];
        assert 0 <= l <= |c| && l < |d| && c[..l] == d[..l] && (l == |c| || c[l] < d[l]);
      }
    }
  }
}
