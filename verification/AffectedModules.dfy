/** Which modules a change can break: the worklist closure over the reversed dependency graph. */
module AffectedModules {
  import opened Paths

  /** Each module's set of direct dependencies. */
  type DepGraph = map<Name, set<Name>>

  ghost function EdgesOf(g: DepGraph): Edges {
    iset x: (Name, Name) | x.0 in g && x.1 in g[x.0]
  }

  /** graph.get(m, ()) */
  function Successors(g: DepGraph, m: Name): set<Name> {
    if m in g then g[m] else {}
  }

  /** Everything the walk can ever meet. */
  ghost function Universe(seeds: seq<Name>, g: DepGraph): set<Name> {
    (set s | s in seeds) + set m, d | m in g && d in g[m] :: d
  }

  ghost predicate FromSeeds(e: Edges, seeds: seq<Name>, n: Name) {
    exists s :: s in seeds && Reaches(e, s, n)
  }

  /** What the walk keeps: everything seen comes from the seeds, and a seen module that is no longer
      on the stack has had its successors seen. */
  ghost predicate Walking(seeds: seq<Name>, g: DepGraph, seen: set<Name>, stack: seq<Name>, pending: set<Name>) {
    && seen <= Universe(seeds, g)
    && (forall s {:trigger s in seeds} :: s in seeds ==> s in seen)
    && (forall n {:trigger n in stack} :: n in stack ==> n in seen)
    && (forall n {:trigger n in seen} :: n in seen ==> FromSeeds(EdgesOf(g), seeds, n))
    && forall n {:trigger Successors(g, n)} :: n in seen && n !in stack && n !in pending ==> Successors(g, n) <= seen
  }

  /** The closure is exactly what the seeds reach, and the least closed set that contains them. */
  method TransitiveClosure(seeds: seq<Name>, g: DepGraph) returns (seen: set<Name>)
    ensures forall n :: n in seen <==> FromSeeds(EdgesOf(g), seeds, n)
    ensures (forall s :: s in seeds ==> s in seen) && ClosedUnder(EdgesOf(g), seen)
    ensures forall t: set<Name> :: (forall s :: s in seeds ==> s in t) && ClosedUnder(EdgesOf(g), t) ==> seen <= t
  {
    seen := set s | s in seeds;
    var stack := seeds;
    StartKeeps(seeds, g);
    hide FromSeeds, ClosedUnder;
    while stack != []
      invariant Walking(seeds, g, seen, stack, {})
      decreases Universe(seeds, g) - seen, |stack|
    {
      var m := stack[|stack| - 1];
      PopKeeps(seeds, g, seen, stack);
      seen, stack := Expand(seeds, g, m, seen, stack[..|stack| - 1]);
    }
    WalkDone(seeds, g, seen);
  }

  lemma StartKeeps(seeds: seq<Name>, g: DepGraph)
    ensures Walking(seeds, g, (set s | s in seeds), seeds, {})
  {
    forall s | s in seeds
      ensures FromSeeds(EdgesOf(g), seeds, s)
    {
      ReachesSelf(EdgesOf(g), s);
    }
  }

  lemma WalkDone(seeds: seq<Name>, g: DepGraph, seen: set<Name>)
    requires Walking(seeds, g, seen, [], {})
    ensures forall n :: n in seen <==> FromSeeds(EdgesOf(g), seeds, n)
    ensures (forall s :: s in seeds ==> s in seen) && ClosedUnder(EdgesOf(g), seen)
    ensures forall t: set<Name> :: (forall s :: s in seeds ==> s in t) && ClosedUnder(EdgesOf(g), t) ==> seen <= t
  {
    forall a, b | a in seen && (a, b) in EdgesOf(g)
      ensures b in seen
    {
      assert Successors(g, a) <= seen;
    }
    ClosureIsLeast(EdgesOf(g), seeds, seen);
  }

  lemma PopKeeps(seeds: seq<Name>, g: DepGraph, seen: set<Name>, stack: seq<Name>)
    requires Walking(seeds, g, seen, stack, {}) && stack != []
    ensures var m := stack[|stack| - 1];
            m in seen && Walking(seeds, g, seen, stack[..|stack| - 1], {m})
  {
    var rest, m := stack[..|stack| - 1], stack[|stack| - 1];
    assert stack == rest + [m];
    assert m in stack;
    forall n | n in rest
      ensures n in seen
    {
      assert n in stack;
    }
  }

  /** Marks and stacks the successors of `m` that have not been seen. */
  method Expand(ghost seeds: seq<Name>, g: DepGraph, m: Name, seen0: set<Name>, stack0: seq<Name>)
    returns (seen: set<Name>, stack: seq<Name>)
    requires m in seen0 && Walking(seeds, g, seen0, stack0, {m})
    ensures Walking(seeds, g, seen, stack, {})
    ensures seen0 <= seen && (seen == seen0 ==> stack == stack0)
  {
    hide FromSeeds, EdgesOf, Walking;
    seen, stack := seen0, stack0;
    var todo := Successors(g, m);
    while todo != {}
      invariant todo <= Successors(g, m) <= todo + seen
      invariant seen0 <= seen && (seen == seen0 ==> stack == stack0)
      invariant Walking(seeds, g, seen, stack, {m})
      decreases todo
    {
      var dep :| dep in todo;
      todo := todo - {dep};
      if dep !in seen {
        SeenFrom(seeds, g, seen, stack, m);
        FoundFrom(g, seeds, m, dep);
        PushKeeps(seeds, g, seen, stack, m, dep);
        seen := seen + {dep};
        stack := stack + [dep];
      }
    }
    NoLongerPending(seeds, g, seen, stack, m);
  }

  lemma SeenFrom(seeds: seq<Name>, g: DepGraph, seen: set<Name>, stack: seq<Name>, m: Name)
    requires Walking(seeds, g, seen, stack, {m}) && m in seen
    ensures FromSeeds(EdgesOf(g), seeds, m)
  {
    hide FromSeeds, EdgesOf;
  }

  lemma NoLongerPending(seeds: seq<Name>, g: DepGraph, seen: set<Name>, stack: seq<Name>, m: Name)
    requires Walking(seeds, g, seen, stack, {m}) && Successors(g, m) <= seen
    ensures Walking(seeds, g, seen, stack, {})
  {
    hide FromSeeds, EdgesOf;
  }

  lemma PushKeeps(seeds: seq<Name>, g: DepGraph, seen: set<Name>, stack: seq<Name>, m: Name, dep: Name)
    requires Walking(seeds, g, seen, stack, {m}) && dep in Successors(g, m) && FromSeeds(EdgesOf(g), seeds, dep)
    ensures Walking(seeds, g, seen + {dep}, stack + [dep], {m})
  {
    hide FromSeeds, EdgesOf;
    var stack' := stack + [dep];
    assert stack'[|stack|] == dep;
    forall n
      ensures n in stack' <==> n in stack || n == dep
    {
    }
  }

  lemma FoundFrom(g: DepGraph, seeds: seq<Name>, m: Name, dep: Name)
    requires FromSeeds(EdgesOf(g), seeds, m) && dep in Successors(g, m)
    ensures FromSeeds(EdgesOf(g), seeds, dep)
  {
    var s :| s in seeds && Reaches(EdgesOf(g), s, m);
    assert (m, dep) in EdgesOf(g);
    ReachesStep(EdgesOf(g), s, m, dep);
  }

  lemma ClosureIsLeast(e: Edges, seeds: seq<Name>, seen: set<Name>)
    requires forall s :: s in seeds ==> s in seen
    requires ClosedUnder(e, seen)
    requires forall n :: n in seen ==> FromSeeds(e, seeds, n)
    ensures forall n :: n in seen <==> FromSeeds(e, seeds, n)
    ensures forall t: set<Name> :: (forall s :: s in seeds ==> s in t) && ClosedUnder(e, t) ==> seen <= t
  {
    forall n, t: set<Name> | FromSeeds(e, seeds, n) && (forall s :: s in seeds ==> s in t) && ClosedUnder(e, t)
      ensures n in t
    {
      var s :| s in seeds && Reaches(e, s, n);
      ReachStaysInside(e, t, s, n);
    }
  }

  /** Every dependency is one of the modules, as the graph builder guarantees. */
  ghost predicate WellFormed(modules: seq<Name>, g: DepGraph) {
    && (forall n :: n in modules <==> n in g)
    && forall m, d {:trigger d in g[m]} :: m in g && d in g[m] ==> d in g
  }

  /** Who depends on whom, instead of who needs whom. */
  method ReverseGraph(modules: seq<Name>, g: DepGraph) returns (r: DepGraph)
    requires WellFormed(modules, g)
    ensures r.Keys == g.Keys && EdgesOf(r) == Reverse(EdgesOf(g))
  {
    r := map m | m in g :: {};
    var keys := g.Keys;
    while keys != {}
      invariant keys <= g.Keys && r.Keys == g.Keys
      invariant forall a, b {:trigger a in r[b]} :: b in r ==> (a in r[b] <==> a in g.Keys - keys && b in g[a])
      decreases keys
    {
      var m :| m in keys;
      var todo := g[m];
      while todo != {}
        invariant todo <= g[m] && r.Keys == g.Keys
        invariant forall a, b {:trigger a in r[b]} ::
                    b in r && a != m ==> (a in r[b] <==> a in g.Keys - keys && b in g[a])
        invariant forall b {:trigger r[b]} :: b in r ==> (m in r[b] <==> b in g[m] - todo)
        decreases todo
      {
        var d :| d in todo;
        assert d in g[m];
        todo := todo - {d};
        r := r[d := r[d] + {m}];
      }
      keys := keys - {m};
    }
    forall x: (Name, Name)
      ensures x in EdgesOf(r) <==> x in Reverse(EdgesOf(g))
    {
      if x.1 in g && x.0 in g[x.1] {
        assert x.0 in r && x.1 in r[x.0];
      }
      if x.0 in r && x.1 in r[x.0] {
        assert x.1 in g && x.0 in g[x.1];
      }
    }
  }

  /** The narrowed build matrix: exactly the touched modules and those with a dependency path to one. */
  method Affected(modules: seq<Name>, g: DepGraph, touched: seq<Name>) returns (affected: set<Name>)
    requires WellFormed(modules, g)
    ensures forall n :: n in affected <==> exists t :: t in touched && Reaches(EdgesOf(g), n, t)
  {
    hide FromSeeds, EdgesOf, Reverse, Reaches, ClosedUnder;
    var reversed := ReverseGraph(modules, g);
    affected := TransitiveClosure(touched, reversed);
    forall n
      ensures n in affected <==> exists t :: t in touched && Reaches(EdgesOf(g), n, t)
    {
      FromSeedsBackwards(EdgesOf(g), touched, n);
    }
  }

  /** Coming from the seeds in the reversed graph is leading to one of them. */
  lemma FromSeedsBackwards(e: Edges, seeds: seq<Name>, n: Name)
    ensures FromSeeds(Reverse(e), seeds, n) <==> exists t :: t in seeds && Reaches(e, n, t)
  {
    hide Reaches, Reverse;
    forall t
      ensures Reaches(Reverse(e), t, n) <==> Reaches(e, n, t)
    {
      ReverseIff(e, n, t);
    }
  }
}
