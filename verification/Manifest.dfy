/** The build manifest's dependency graph: validation, and the order in which a module's transitive
    dependencies are built. */
module Manifest {
  import opened Paths

  /** Each module's `depends_on`, as written. */
  type Graph = map<Name, seq<Name>>

  ghost function EdgesOf(g: Graph): Edges {
    iset x: (Name, Name) | x.0 in g && x.1 in g[x.0]
  }

  /** Every dependency names a module of the manifest. */
  ghost predicate Known(g: Graph) {
    forall n, d {:trigger d in g[n]} :: n in g && d in g[n] ==> d in g
  }

  datatype Verdict = Accepted | UnknownDependency(user: Name, dep: Name) | Cycle(path: seq<Name>)

  datatype Colour = White | Grey | Black

  /** The depth-first search for a cycle. */
  class CycleSearch {
    const g: Graph
    var colour: map<Name, Colour>
    /** The black modules in the order they were finished. */
    ghost var finished: seq<Name>

    constructor (g: Graph)
      ensures this.g == g && Valid([]) && (forall n :: n in g ==> colour[n] == White)
    {
      this.g := g;
      colour := map n | n in g :: White;
      finished := [];
    }

    /** The grey modules are those on the stack, the black ones those finished, dependencies first. */
    ghost predicate Valid(stack: seq<Name>)
      reads this
    {
      && colour.Keys == g.Keys
      && (forall n {:trigger colour[n]} :: n in g ==>
            && (colour[n] == Grey <==> n in stack)
            && (colour[n] == Black <==> n in finished))
      && (forall n {:trigger n in finished} :: n in finished ==> n in g)
      && (forall n {:trigger n in stack} :: n in stack ==> n in g)
      && DepsFirst(EdgesOf(g), finished)
    }

    ghost function Whites(): set<Name>
      reads this
    {
      set n | n in colour && colour[n] == White
    }

    method Visit(name: Name, stack: seq<Name>) returns (v: Verdict)
      requires Known(g) && name in g && Valid(stack) && IsPath(EdgesOf(g), stack + [name])
      modifies this
      ensures v.Accepted? ==> Valid(stack) && name in finished && Whites() <= old(Whites())
      ensures v.Accepted? ==> forall n {:trigger n in finished} :: n in old(finished) ==> n in finished
      ensures !v.Accepted? ==> v.Cycle? && IsCycleReport(EdgesOf(g), v.path)
      decreases Whites(), 1
    {
      hide DepsFirst, EdgesOf, IsPath, Known;
      if colour[name] == Grey {
        assert name in stack;
        var i :| 0 <= i < |stack| && stack[i] == name;
        var path := stack + [name];
        assert path[|path| - 1] == path[i];
        return Cycle(path);
      }
      if colour[name] == Black {
        return Accepted;
      }
      ghost var whites := Whites();
      Enter(name, stack);
      var deps := g[name];
      ghost var inner := stack + [name];
      var i := 0;
      while i < |deps|
        invariant 0 <= i <= |deps| && Valid(inner)
        invariant Whites() <= whites - {name}
        invariant forall k {:trigger deps[k]} :: 0 <= k < i ==> deps[k] in finished
        invariant forall n {:trigger n in finished} :: n in old(finished) ==> n in finished
      {
        ghost var before := finished;
        v := VisitDep(name, deps[i], stack, whites);
        if v != Accepted {
          return;
        }
        i := i + 1;
      }
      Leave(name, stack);
      v := Accepted;
    }

    method VisitDep(name: Name, dep: Name, stack: seq<Name>, ghost whites: set<Name>) returns (v: Verdict)
      requires Known(g) && name in g && dep in g[name]
      requires Valid(stack + [name]) && IsPath(EdgesOf(g), stack + [name])
      requires name in whites && Whites() <= whites - {name}
      modifies this
      ensures v.Accepted? ==> Valid(stack + [name]) && dep in finished && Whites() <= old(Whites())
      ensures v.Accepted? ==> forall n {:trigger n in finished} :: n in old(finished) ==> n in finished
      ensures !v.Accepted? ==> v.Cycle? && IsCycleReport(EdgesOf(g), v.path)
      decreases whites - {name}, 2
    {
      assert (name, dep) in EdgesOf(g);
      PathMore(EdgesOf(g), stack + [name], dep);
      v := Visit(dep, stack + [name]);
    }

    method Enter(name: Name, ghost stack: seq<Name>)
      requires name in g && Valid(stack) && colour[name] == White
      modifies this`colour
      ensures Valid(stack + [name]) && name !in stack && Whites() == old(Whites()) - {name}
    {
      colour := colour[name := Grey];
    }

    method Leave(name: Name, ghost stack: seq<Name>)
      requires name in g && Valid(stack + [name]) && name !in stack
      requires forall d {:trigger d in g[name]} :: d in g[name] ==> d in finished
      modifies this
      ensures Valid(stack) && finished == old(finished) + [name] && Whites() == old(Whites())
    {
      MemberMore(stack, name);
      DepsFirstAppend(EdgesOf(g), finished, name);
      MemberMore(finished, name);
      hide DepsFirst, EdgesOf;
      colour := colour[name := Black];
      finished := finished + [name];
    }
  }

  lemma MemberMore(s: seq<Name>, x: Name)
    ensures forall n {:trigger n in s} {:trigger n in s + [x]} :: n in s + [x] <==> n in s || n == x
  {
  }

  lemma PathMore(e: Edges, p: seq<Name>, n: Name)
    requires IsPath(e, p) && (p[|p| - 1], n) in e
    ensures IsPath(e, p + [n])
  {
  }

  /** The reported path is a path of the graph whose last module occurs in it before. */
  ghost predicate IsCycleReport(e: Edges, path: seq<Name>) {
    && IsPath(e, path)
    && exists i: nat :: i + 1 < |path| && path[i] == path[|path| - 1]
  }

  lemma ReportIsCycle(e: Edges, path: seq<Name>)
    requires IsCycleReport(e, path)
    ensures Cyclic(e)
  {
    var k: nat :| k + 1 < |path| && path[k] == path[|path| - 1];
    BackEdgeIsCycle(e, path, k);
  }

  ghost predicate Lists(names: seq<Name>, g: Graph) {
    forall n :: n in names <==> n in g
  }

  /** The dependency checks of manifest validation: unknown names first, then cycles. A manifest is
      accepted exactly when every dependency is known and the dependency graph has no cycle, and a
      rejection for a cycle shows one. */
  method Validate(names: seq<Name>, g: Graph) returns (v: Verdict)
    requires Lists(names, g)
    ensures v.Accepted? <==> Known(g) && !Cyclic(EdgesOf(g))
    ensures v.UnknownDependency? ==> v.user in g && v.dep in g[v.user] && v.dep !in g
    ensures v.Cycle? ==> Known(g) && IsCycleReport(EdgesOf(g), v.path)
  {
    v := CheckKnown(names, g);
    if v == Accepted {
      v := CheckCycles(names, g);
    }
  }

  method CheckKnown(names: seq<Name>, g: Graph) returns (v: Verdict)
    requires Lists(names, g)
    ensures v.Accepted? || v.UnknownDependency?
    ensures v.Accepted? <==> Known(g)
    ensures v.UnknownDependency? ==> v.user in g && v.dep in g[v.user] && v.dep !in g
  {
    var i := 0;
    while i < |names|
      invariant 0 <= i <= |names|
      invariant forall n, d {:trigger d in g[n]} :: n in names[..i] && d in g[n] ==> d in g
    {
      var deps := g[names[i]];
      var j := 0;
      while j < |deps|
        invariant 0 <= j <= |deps|
        invariant forall k {:trigger deps[k]} :: 0 <= k < j ==> deps[k] in g
      {
        if deps[j] !in g {
          assert deps[j] in g[names[i]];
          return UnknownDependency(names[i], deps[j]);
        }
        j := j + 1;
      }
      assert names[..i + 1] == names[..i] + [names[i]];
      i := i + 1;
    }
    assert names[..|names|] == names;
    v := Accepted;
  }

  method CheckCycles(names: seq<Name>, g: Graph) returns (v: Verdict)
    requires Lists(names, g) && Known(g)
    ensures v.Accepted? || v.Cycle?
    ensures v.Accepted? <==> !Cyclic(EdgesOf(g))
    ensures v.Cycle? ==> IsCycleReport(EdgesOf(g), v.path)
  {
    var search := new CycleSearch(g);
    var i := 0;
    while i < |names|
      invariant 0 <= i <= |names| && search.g == g && search.Valid([])
      invariant forall k {:trigger names[k]} :: 0 <= k < i ==> names[k] in search.finished
    {
      v := search.Visit(names[i], []);
      if v != Accepted {
        ReportIsCycle(EdgesOf(g), v.path);
        return;
      }
      i := i + 1;
    }
    hide IsPath, DepsFirst;
    forall a, b | (a, b) in EdgesOf(g)
      ensures a in search.finished
    {
      assert a in names;
      var k :| 0 <= k < |names| && names[k] == a;
    }
    ListedIsAcyclic(EdgesOf(g), search.finished);
    v := Accepted;
  }

  // ---------- resolving dependencies ----------

  /** The depth-first walk that lists a module after its dependencies. */
  class Resolver {
    const g: Graph
    var seen: set<Name>
    var ordered: seq<Name>

    constructor (g: Graph)
      ensures this.g == g && seen == {} && ordered == []
    {
      this.g := g;
      seen, ordered := {}, [];
    }

    /** Seen are the listed modules and those still being visited. */
    ghost predicate Valid(stack: seq<Name>)
      reads this
    {
      && seen <= g.Keys
      && (forall n {:trigger n in seen} :: n in seen <==> n in ordered || n in stack)
      && (forall n {:trigger n in stack} :: n in stack ==> n !in ordered)
      && DepsFirst(EdgesOf(g), ordered)
    }

    /** What a visit adds to the list can be reached from the root. */
    twostate predicate Grows(root: Name)
      reads this
    {
      && old(seen) <= seen && |old(ordered)| <= |ordered| && ordered[..|old(ordered)|] == old(ordered)
      && forall n {:trigger n in ordered} :: n in ordered && n !in old(ordered) ==> Reaches(EdgesOf(g), root, n)
    }

    method Visit(name: Name, ghost stack: seq<Name>, ghost root: Name)
      requires Known(g) && !Cyclic(EdgesOf(g))
      requires name in g && Valid(stack) && IsPath(EdgesOf(g), stack + [name])
      requires Reaches(EdgesOf(g), root, name)
      modifies this
      ensures Valid(stack) && Grows(root) && name in ordered
      ensures old(name !in seen) ==> ordered != [] && ordered[|ordered| - 1] == name
      decreases g.Keys - seen, 1
    {
      hide DepsFirst, EdgesOf, IsPath, Known, Cyclic;
      if name in seen {
        NotOnStack(EdgesOf(g), stack, name);
        return;
      }
      ghost var unseen := g.Keys - seen;
      Enter(name, stack);
      var deps := g[name];
      ghost var inner := stack + [name];
      var i := 0;
      while i < |deps|
        invariant 0 <= i <= |deps| && Valid(inner) && name in seen && Grows(root)
        invariant forall k {:trigger deps[k]} :: 0 <= k < i ==> deps[k] in ordered
      {
        ghost var before := ordered;
        VisitDep(name, deps[i], stack, root, unseen);
        Extends(old(ordered), before, ordered);
        i := i + 1;
      }
      Leave(name, stack);
    }

    method VisitDep(name: Name, dep: Name, ghost stack: seq<Name>, ghost root: Name, ghost unseen: set<Name>)
      requires Known(g) && !Cyclic(EdgesOf(g))
      requires name in g && dep in g[name] && Reaches(EdgesOf(g), root, name)
      requires Valid(stack + [name]) && IsPath(EdgesOf(g), stack + [name])
      requires name in unseen && g.Keys - seen <= unseen - {name}
      modifies this
      ensures Valid(stack + [name]) && Grows(root) && dep in ordered
      decreases unseen - {name}, 2
    {
      assert (name, dep) in EdgesOf(g);
      ReachesStep(EdgesOf(g), root, name, dep);
      PathMore(EdgesOf(g), stack + [name], dep);
      Visit(dep, stack + [name], root);
    }

    method Enter(name: Name, ghost stack: seq<Name>)
      requires name in g && Valid(stack) && name !in seen
      modifies this`seen
      ensures Valid(stack + [name]) && name !in stack && seen == old(seen) + {name}
    {
      assert name !in ordered && name !in stack;
      seen := seen + {name};
    }

    method Leave(name: Name, ghost stack: seq<Name>)
      requires name in g && Valid(stack + [name]) && name !in stack
      requires forall d {:trigger d in g[name]} :: d in g[name] ==> d in ordered
      modifies this`ordered
      ensures Valid(stack) && ordered == old(ordered) + [name]
    {
      assert name in stack + [name];
      forall n | n in stack
        ensures n !in ordered + [name]
      {
        assert n in stack + [name];
      }
      DepsFirstAppend(EdgesOf(g), ordered, name);
      ordered := ordered + [name];
    }
  }

  /** In an acyclic graph a path does not meet its own end. */
  lemma NotOnStack(e: Edges, stack: seq<Name>, name: Name)
    requires !Cyclic(e) && IsPath(e, stack + [name])
    ensures name !in stack
  {
    if name in stack {
      var k :| 0 <= k < |stack| && stack[k] == name;
      BackEdgeIsCycle(e, stack + [name], k);
    }
  }

  lemma Extends(a: seq<Name>, b: seq<Name>, c: seq<Name>)
    requires |a| <= |b| <= |c| && b[..|a|] == a && c[..|b|] == b
    ensures c[..|a|] == a
    ensures forall n {:trigger n in c} :: n in b ==> n in c
  {
  }

  datatype Resolution = Resolved(order: seq<Name>) | UnknownModule(name: Name)

  /** On every manifest that validation accepts: the list has no repetition, holds exactly the module
      and its transitive dependencies, puts each after all of its own dependencies, and ends with the
      requested module. */
  method ResolveDeps(g: Graph, root: Name) returns (r: Resolution)
    requires Known(g) && !Cyclic(EdgesOf(g))
    ensures r.UnknownModule? <==> root !in g
    ensures r.Resolved? ==>
              && DepsFirst(EdgesOf(g), r.order)
              && (forall n :: n in r.order <==> Reaches(EdgesOf(g), root, n))
              && r.order != [] && r.order[|r.order| - 1] == root
  {
    if root !in g {
      return UnknownModule(root);
    }
    var walk := new Resolver(g);
    ReachesSelf(EdgesOf(g), root);
    walk.Visit(root, [], root);
    var order := walk.ordered;
    DepsFirstClosed(EdgesOf(g), order);
    forall n | Reaches(EdgesOf(g), root, n)
      ensures n in order
    {
      ReachStaysInside(EdgesOf(g), (set m | m in order), root, n);
    }
    r := Resolved(order);
  }
}
