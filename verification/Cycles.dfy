/** Sequences read cyclically, and what deleting elements does to that reading. */
module Cycles {
  import opened LinkedQueue

  /** A list read cyclically from just after place `p`. */
  function Rotated<T>(s: seq<T>, p: int): seq<T>
    requires -1 <= p < |s|
  {
    s[p + 1..] + s[..p + 1]
  }

  lemma RotatedAt<T>(s: seq<T>, p: int, k: nat)
    requires -1 <= p < |s| && k < |s|
    ensures |Rotated(s, p)| == |s|
    ensures Rotated(s, p)[k] == s[if p + 1 + k < |s| then p + 1 + k else p + 1 + k - |s|]
  {
  }

  lemma RotatedWraps<T>(s: seq<T>)
    ensures s != [] ==> Rotated(s, |s| - 1) == Rotated(s, -1)
  {
  }

  lemma RotatedHas<T>(s: seq<T>, p: int, j: nat)
    requires -1 <= p < |s| && j < |s|
    ensures |Rotated(s, p)| == |s|
    ensures s[j] == Rotated(s, p)[if j > p then j - p - 1 else j + |s| - p - 1]
  {
  }

  lemma {:induction false} WithoutMember<T>(s: seq<T>, drop: set<T>, t: T)
    ensures t in Without(s, drop) <==> t in s && t !in drop
  {
    if s != [] {
      assert s == [s[0]] + s[1..];
      WithoutMember(s[1..], drop, t);
    }
  }

  lemma {:induction false} WithoutConcat<T>(a: seq<T>, b: seq<T>, drop: set<T>)
    ensures Without(a + b, drop) == Without(a, drop) + Without(b, drop)
  {
    if a == [] {
      assert a + b == b;
    } else {
      assert (a + b)[0] == a[0] && (a + b)[1..] == a[1..] + b;
      WithoutConcat(a[1..], b, drop);
    }
  }

  lemma {:induction false} WithoutTwice<T>(s: seq<T>, drop: set<T>, more: set<T>)
    ensures Without(Without(s, drop), more) == Without(s, drop + more)
  {
    if s != [] {
      WithoutTwice(s[1..], drop, more);
    }
  }

  lemma {:induction false} WithoutNone<T>(s: seq<T>, drop: set<T>)
    requires forall k :: 0 <= k < |s| ==> s[k] !in drop
    ensures Without(s, drop) == s
  {
    if s != [] {
      WithoutNone(s[1..], drop);
    }
  }

  lemma {:induction false} WithoutLength<T>(s: seq<T>, drop: set<T>)
    ensures |Without(s, drop)| <= |s|
  {
    if s != [] {
      WithoutLength(s[1..], drop);
    }
  }

  lemma {:induction false} WithoutDistinct<T>(s: seq<T>, drop: set<T>)
    requires Distinct(s)
    ensures Distinct(Without(s, drop))
  {
    if s != [] {
      WithoutDistinct(s[1..], drop);
      WithoutMember(s[1..], drop, s[0]);
    }
  }

  lemma {:induction false} IndexOfSplit<T>(a: seq<T>, x: T, b: seq<T>)
    requires x !in a
    ensures IndexIn(a + [x] + b, x) == |a|
  {
    var s := a + [x] + b;
    assert s[|a|] == x;
    assert forall k :: 0 <= k < |a| ==> s[k] == a[k];
  }

  lemma ThreeParts<T>(s: seq<T>, p: nat)
    requires p < |s|
    ensures s == s[..p] + [s[p]] + s[p + 1..]
  {
  }

  lemma SplitAt<T>(s: seq<T>, x: T)
    requires x in s
    ensures 0 <= IndexIn(s, x) < |s| && x !in s[..IndexIn(s, x)]
    ensures s == s[..IndexIn(s, x)] + [x] + s[IndexIn(s, x) + 1..]
  {
    var p := IndexIn(s, x);
    assert p >= 0;
    ThreeParts(s, p);
  }

  /** Deleting other elements and reading on from `x` commute. */
  lemma RotatedWithout<T>(s: seq<T>, x: T, drop: set<T>)
    requires x in s && x !in drop
    ensures x in Without(s, drop)
    ensures Rotated(Without(s, drop), IndexIn(Without(s, drop), x)) == Without(Rotated(s, IndexIn(s, x)), drop)
  {
    SplitAt(s, x);
    var p := IndexIn(s, x);
    var a, b := s[..p], s[p + 1..];
    var a', b' := Without(a, drop), Without(b, drop);
    WithoutConcat(a + [x], b, drop);
    WithoutConcat(a, [x], drop);
    assert Without([x], drop) == [x];
    WithoutMember(a, drop, x);
    WithoutMember(s, drop, x);
    IndexOfSplit(a', x, b');
    var t := a' + [x] + b';
    assert Without(s, drop) == t;
    assert t[|a'| + 1..] == b' && t[..|a'| + 1] == a' + [x];
    assert s[..p + 1] == a + [x];
    WithoutConcat(b, a + [x], drop);
  }

  /** Reading on from the element `w` places further is rotating the reading itself. */
  lemma RotateAgain<T>(s: seq<T>, p: nat, w: nat)
    requires Distinct(s) && p < |s| && w < |s|
    ensures |Rotated(s, p)| == |s|
    ensures Rotated(s, IndexIn(s, Rotated(s, p)[w])) == Rotated(Rotated(s, p), w)
  {
    var r := Rotated(s, p);
    RotatedAt(s, p, w);
    var q := if p + 1 + w < |s| then p + 1 + w else p + 1 + w - |s|;
    assert IndexIn(s, r[w]) == q;
    forall k | 0 <= k < |s| ensures Rotated(s, q)[k] == Rotated(r, w)[k] {
      RotatedAt(s, q, k);
      RotatedAt(r, w, k);
      RotatedAt(s, p, if w + 1 + k < |s| then w + 1 + k else w + 1 + k - |s|);
    }
  }

  lemma RotatedDistinct<T>(s: seq<T>, p: int)
    requires Distinct(s) && -1 <= p < |s|
    ensures Distinct(Rotated(s, p))
  {
    var r := Rotated(s, p);
    forall i, j | 0 <= i < j < |r| ensures r[i] != r[j] {
      RotatedAt(s, p, i);
      RotatedAt(s, p, j);
    }
  }

  /** The place of `t` does not grow when others are deleted. */
  lemma IndexWithout<T>(s: seq<T>, drop: set<T>, t: T)
    requires t in s && t !in drop
    ensures 0 <= IndexIn(Without(s, drop), t) <= IndexIn(s, t)
  {
    SplitAt(s, t);
    var p := IndexIn(s, t);
    var a, b := s[..p], s[p + 1..];
    WithoutConcat(a + [t], b, drop);
    WithoutConcat(a, [t], drop);
    assert Without([t], drop) == [t];
    WithoutMember(a, drop, t);
    IndexOfSplit(Without(a, drop), t, Without(b, drop));
    WithoutLength(a, drop);
  }

  /** Deleting keeps the order of what is left. */
  lemma {:induction false} WithoutOrder<T>(s: seq<T>, drop: set<T>, t: T, u: T)
    requires t in s && u in s && t !in drop && u !in drop && IndexIn(s, t) < IndexIn(s, u)
    ensures 0 <= IndexIn(Without(s, drop), t) < IndexIn(Without(s, drop), u)
  {
    WithoutMember(s, drop, t);
    WithoutMember(s, drop, u);
    if s[0] != t {
      WithoutOrder(s[1..], drop, t, u);
    }
  }

  /** An element put at the end of the list delays any other by at most one place. */
  lemma IndexAppended<T>(s: seq<T>, p: nat, u: T, t: T)
    requires p < |s| && t in Rotated(s, p)
    ensures 0 <= IndexIn(Rotated(s + [u], p), t) <= IndexIn(Rotated(s, p), t) + 1
  {
    var a, b := s[p + 1..], s[..p + 1];
    var d := IndexIn(a + b, t);
    assert (s + [u])[p + 1..] == a + [u] && (s + [u])[..p + 1] == b;
    assert (a + [u] + b)[if d < |a| then d else d + 1] == t;
  }

  /** Reading on from place `w`, what lay further on comes sooner. */
  lemma NearerAfter<T>(r: seq<T>, w: nat, t: T)
    requires t in r && w < IndexIn(r, t)
    ensures t in Rotated(r, w) && 0 <= IndexIn(Rotated(r, w), t) < IndexIn(r, t)
  {
    var k := IndexIn(r, t) - w - 1;
    RotatedAt(r, w, k);
    assert Rotated(r, w)[k] == t;
  }
}
