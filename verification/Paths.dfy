/** Paths in directed graphs given by their edges. */
module Paths {
  type Name = string
  type Edges = iset<(Name, Name)>

  ghost predicate IsPath(e: Edges, p: seq<Name>) {
    p != [] && forall i {:trigger p[i]} :: 0 < i < |p| ==> (p[i - 1], p[i]) in e
  }

  ghost predicate Connects(e: Edges, p: seq<Name>, a: Name, b: Name) {
    IsPath(e, p) && p[0] == a && p[|p| - 1] == b
  }

  /** Some path, possibly of length zero, leads from `a` to `b`. */
  ghost predicate Reaches(e: Edges, a: Name, b: Name) {
    exists p: seq<Name> :: Connects(e, p, a, b)
  }

  /** Some path with at least one edge returns to where it started. */
  ghost predicate Cyclic(e: Edges) {
    exists p: seq<Name>, a: Name :: |p| >= 2 && Connects(e, p, a, a)
  }

  ghost predicate ClosedUnder(e: Edges, s: set<Name>) {
    forall a, b {:trigger (a, b) in e} :: a in s && (a, b) in e ==> b in s
  }

  lemma ReachesSelf(e: Edges, a: Name)
    ensures Reaches(e, a, a)
  {
    assert Connects(e, [a], a, a);
  }

  lemma ReachesStep(e: Edges, a: Name, b: Name, c: Name)
    requires Reaches(e, a, b) && (b, c) in e
    ensures Reaches(e, a, c)
  {
    var p :| Connects(e, p, a, b);
    assert Connects(e, p + [c], a, c);
  }

  /** What is reachable from a closed set stays in it. */
  lemma {:induction false} PathStaysInside(e: Edges, s: set<Name>, p: seq<Name>, a: Name, b: Name)
    requires ClosedUnder(e, s) && a in s && Connects(e, p, a, b)
    ensures b in s
    decreases |p|
  {
    if |p| > 1 {
      assert Connects(e, p[1..], p[1], b);
      PathStaysInside(e, s, p[1..], p[1], b);
    }
  }

  lemma ReachStaysInside(e: Edges, s: set<Name>, a: Name, b: Name)
    requires ClosedUnder(e, s) && a in s && Reaches(e, a, b)
    ensures b in s
  {
    var p :| Connects(e, p, a, b);
    PathStaysInside(e, s, p, a, b);
  }

  /** A path whose end is joined to an earlier node closes a cycle. */
  lemma BackEdgeIsCycle(e: Edges, p: seq<Name>, i: nat)
    requires IsPath(e, p) && i + 1 < |p| && p[|p| - 1] == p[i]
    ensures Cyclic(e)
  {
    assert Connects(e, p[i..], p[i], p[i]);
  }

  ghost function Reverse(e: Edges): Edges {
    iset x: (Name, Name) | (x.1, x.0) in e
  }

  lemma {:induction false} ReverseReaches(e: Edges, p: seq<Name>, a: Name, b: Name)
    requires Connects(e, p, a, b)
    ensures Reaches(Reverse(e), b, a)
    decreases |p|
  {
    if |p| == 1 {
      ReachesSelf(Reverse(e), a);
    } else {
      assert Connects(e, p[1..], p[1], b);
      ReverseReaches(e, p[1..], p[1], b);
      assert (p[0], p[1]) in e;
      ReachesStep(Reverse(e), b, p[1], a);
    }
  }

  /** Reachability in the reversed graph is reachability backwards. */
  lemma ReverseIff(e: Edges, a: Name, b: Name)
    ensures Reaches(Reverse(e), b, a) <==> Reaches(e, a, b)
  {
    if Reaches(e, a, b) {
      var p :| Connects(e, p, a, b);
      ReverseReaches(e, p, a, b);
    }
    if Reaches(Reverse(e), b, a) {
      var p :| Connects(Reverse(e), p, b, a);
      ReverseReaches(Reverse(e), p, b, a);
      assert Reverse(Reverse(e)) == e;
    }
  }

  // ---------- dependency orders ----------

  /** No repetitions, and every dependency of a listed node is listed earlier. */
  ghost predicate DepsFirst(e: Edges, order: seq<Name>) {
    && (forall i, j {:trigger order[i], order[j]} :: 0 <= i < j < |order| ==> order[i] != order[j])
    && forall i, d {:trigger (order[i], d) in e} :: 0 <= i < |order| && (order[i], d) in e ==> d in order[..i]
  }

  lemma DepsFirstClosed(e: Edges, order: seq<Name>)
    requires DepsFirst(e, order)
    ensures ClosedUnder(e, set n | n in order)
  {
  }

  lemma DepsFirstAppend(e: Edges, order: seq<Name>, n: Name)
    requires DepsFirst(e, order) && n !in order
    requires forall d :: (n, d) in e ==> d in order
    ensures DepsFirst(e, order + [n])
  {
    var r := order + [n];
    forall i, d | 0 <= i < |r| && (r[i], d) in e
      ensures d in r[..i]
    {
      if i < |order| {
        assert order[i] == r[i] && d in order[..i];
        assert order[..i] == r[..i];
      } else {
        assert r[..i] == order;
      }
    }
  }

  /** Along a path in a listed graph the position strictly decreases. */
  lemma {:induction false} PathDescends(e: Edges, order: seq<Name>, p: seq<Name>, i: nat) returns (j: nat)
    requires DepsFirst(e, order) && IsPath(e, p) && i < |order| && order[i] == p[0]
    ensures j <= i && order[j] == p[|p| - 1] && (|p| > 1 ==> j < i)
    decreases |p|
  {
    if |p| == 1 {
      j := i;
    } else {
      assert (p[0], p[1]) in e;
      assert p[1] in order[..i];
      var k :| 0 <= k < i && order[k] == p[1];
      assert IsPath(e, p[1..]);
      j := PathDescends(e, order, p[1..], k);
    }
  }

  /** A graph whose edges all start at listed nodes has no cycle. */
  lemma ListedIsAcyclic(e: Edges, order: seq<Name>)
    requires DepsFirst(e, order)
    requires forall a, b {:trigger (a, b) in e} :: (a, b) in e ==> a in order
    ensures !Cyclic(e)
  {
    if Cyclic(e) {
      var p, a :| |p| >= 2 && Connects(e, p, a, a);
      assert (p[0], p[1]) in e;
      var i :| 0 <= i < |order| && order[i] == p[0];
      var j := PathDescends(e, order, p, i);
      assert false;
    }
  }
}
