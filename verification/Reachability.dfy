/** Directed graphs as sets of edges: paths, reachability and acyclicity. */
module Reachability {
  import opened Common

  type Graph = set<(Id, Id)>

  ghost predicate Path(g: Graph, p: seq<Id>) {
    |p| > 0 && forall i :: 0 <= i < |p| - 1 ==> (p[i], p[i + 1]) in g
  }

  ghost predicate PathBetween(g: Graph, p: seq<Id>, a: Id, b: Id) {
    Path(g, p) && p[0] == a && p[|p| - 1] == b
  }

  ghost predicate Reaches(g: Graph, a: Id, b: Id) {
    exists p :: PathBetween(g, p, a, b)
  }

  /** No path of at least one edge returns to its start. */
  ghost predicate Acyclic(g: Graph) {
    forall p :: Path(g, p) && |p| > 1 ==> p[0] != p[|p| - 1]
  }

  ghost predicate Closed(g: Graph, s: set<Id>) {
    forall e :: e in g && e.0 in s ==> e.1 in s
  }

  lemma ReachesSelf(g: Graph, a: Id)
    ensures Reaches(g, a, a)
  {
    assert PathBetween(g, [a], a, a);
  }

  lemma ReachesStep(g: Graph, a: Id, b: Id, c: Id)
    requires (a, b) in g && Reaches(g, b, c)
    ensures Reaches(g, a, c)
  {
    var p :| PathBetween(g, p, b, c);
    assert PathBetween(g, [a] + p, a, c);
  }

  lemma ReachesTransitive(g: Graph, a: Id, b: Id, c: Id)
    requires Reaches(g, a, b) && Reaches(g, b, c)
    ensures Reaches(g, a, c)
  {
    var p :| PathBetween(g, p, a, b);
    var q :| PathBetween(g, q, b, c);
    var r := p + q[1..];
    forall i | 0 <= i < |r| - 1
      ensures (r[i], r[i + 1]) in g
    {
      if i >= |p| - 1 {
        assert r[i] == q[i - (|p| - 1)];
      }
    }
    assert PathBetween(g, r, a, c);
  }

  lemma ReachesInLarger(g: Graph, h: Graph, a: Id, b: Id)
    requires g <= h && Reaches(g, a, b)
    ensures Reaches(h, a, b)
  {
    var p :| PathBetween(g, p, a, b);
    assert PathBetween(h, p, a, b);
  }

  lemma AcyclicInSmaller(g: Graph, h: Graph)
    requires g <= h && Acyclic(h)
    ensures Acyclic(g)
  {
    forall p | Path(g, p) && |p| > 1
      ensures p[0] != p[|p| - 1]
    {
      assert Path(h, p);
    }
  }

  /** A path that starts in a closed set never leaves it. */
  lemma {:induction false} ClosedSetTrapsPath(g: Graph, s: set<Id>, p: seq<Id>)
    requires Closed(g, s) && Path(g, p) && p[0] in s
    ensures forall i :: 0 <= i < |p| ==> p[i] in s
  {
    if |p| > 1 {
      assert (p[0], p[1]) in g;
      var rest := p[1..];
      ClosedSetTrapsPath(g, s, rest);
      forall i | 0 <= i < |p|
        ensures p[i] in s
      {
        if i > 0 {
          assert p[i] == rest[i - 1];
        }
      }
    }
  }

  lemma ReachStaysInside(g: Graph, s: set<Id>, a: Id, b: Id)
    requires Closed(g, s) && a in s && Reaches(g, a, b)
    ensures b in s
  {
    var p :| PathBetween(g, p, a, b);
    ClosedSetTrapsPath(g, s, p);
  }

  /** Going round a closed path: the head of each of its edges reaches the edge's tail. */
  lemma CycleReturns(g: Graph, p: seq<Id>, i: nat)
    requires Path(g, p) && p[0] == p[|p| - 1] && i < |p| - 1
    ensures Reaches(g, p[i + 1], p[i])
  {
    assert PathBetween(g, p[i + 1..], p[i + 1], p[|p| - 1]);
    assert PathBetween(g, p[..i + 1], p[0], p[i]);
    ReachesTransitive(g, p[i + 1], p[0], p[i]);
  }

  /** A new edge out of `a` does not help anything to reach `a`. */
  lemma {:induction false} EdgeOutOfTargetUseless(g: Graph, a: Id, b: Id, p: seq<Id>)
    requires Path(g + {(a, b)}, p) && p[|p| - 1] == a
    ensures Reaches(g, p[0], a)
    decreases |p|
  {
    if p[0] == a {
      ReachesSelf(g, a);
    } else {
      assert (p[0], p[1]) in g;
      assert Path(g + {(a, b)}, p[1..]);
      EdgeOutOfTargetUseless(g, a, b, p[1..]);
      ReachesStep(g, p[0], p[1], a);
    }
  }

  /** A closed path in g plus a -> b either stays inside g or witnesses that b reaches a. */
  lemma CycleUsesEdge(g: Graph, a: Id, b: Id, p: seq<Id>)
    requires Path(g + {(a, b)}, p) && p[0] == p[|p| - 1]
    ensures Path(g, p) || Reaches(g, b, a)
  {
    if i :| 0 <= i < |p| - 1 && (p[i], p[i + 1]) == (a, b) {
      CycleReturns(g + {(a, b)}, p, i);
      var q :| PathBetween(g + {(a, b)}, q, b, a);
      EdgeOutOfTargetUseless(g, a, b, q);
    }
  }

  /** An edge a -> b may join an acyclic graph exactly when b does not already reach a. */
  lemma AddEdgeAcyclicIff(g: Graph, a: Id, b: Id)
    requires Acyclic(g)
    ensures Acyclic(g + {(a, b)}) <==> !Reaches(g, b, a)
  {
    var h := g + {(a, b)};
    if Reaches(g, b, a) {
      var q :| PathBetween(g, q, b, a);
      var cycle := [a] + q;
      assert Path(h, cycle) && |cycle| > 1 && cycle[0] == cycle[|cycle| - 1];
    }
    forall p | Path(h, p) && |p| > 1 && p[0] == p[|p| - 1]
      ensures Reaches(g, b, a)
    {
      CycleUsesEdge(g, a, b, p);
    }
  }

  lemma {:induction false} SplitsAtEdge(g: Graph, u: Id, v: Id, p: seq<Id>)
    requires Path(g + {(u, v)}, p)
    ensures Reaches(g, p[0], p[|p| - 1]) || (Reaches(g, p[0], u) && Reaches(g, v, p[|p| - 1]))
  {
    var a, b := p[0], p[|p| - 1];
    if |p| == 1 {
      ReachesSelf(g, a);
    } else {
      SplitsAtEdge(g, u, v, p[1..]);
      assert (p[0], p[1]) in g + {(u, v)};
      if (a, p[1]) in g {
        if Reaches(g, p[1], b) {
          ReachesStep(g, a, p[1], b);
        } else {
          ReachesStep(g, a, p[1], u);
        }
      } else {
        ReachesSelf(g, u);
      }
    }
  }

  /** A new edge u -> v adds exactly the paths that go through it. */
  lemma ReachesThroughEdge(g: Graph, u: Id, v: Id, a: Id, b: Id)
    ensures Reaches(g + {(u, v)}, a, b) <==> Reaches(g, a, b) || (Reaches(g, a, u) && Reaches(g, v, b))
  {
    var h := g + {(u, v)};
    if Reaches(h, a, b) {
      var p :| PathBetween(h, p, a, b);
      SplitsAtEdge(g, u, v, p);
    }
    if Reaches(g, a, b) {
      ReachesInLarger(g, h, a, b);
    }
    if Reaches(g, a, u) && Reaches(g, v, b) {
      ReachesInLarger(g, h, a, u);
      ReachesInLarger(g, h, v, b);
      ReachesStep(h, u, v, b);
      ReachesTransitive(h, a, u, b);
    }
  }

  // ---------------------------------------------------------------- many edges at once

  /** One added edge leads to another through g; each is stood for by its source. */
  ghost function Links(g: Graph, added: Graph): Graph {
    set e, f | e in added && f in added && Reaches(g, e.1, f.0) :: (e.0, f.0)
  }

  /** From a to b through g, or through some added edges, the first from `first` and the last `last`. */
  ghost predicate Through(g: Graph, added: Graph, a: Id, b: Id, first: (Id, Id), last: (Id, Id)) {
    && first in added && last in added
    && Reaches(g, a, first.0) && Reaches(Links(g, added), first.0, last.0) && Reaches(g, last.1, b)
  }

  ghost predicate ThroughSome(g: Graph, added: Graph, a: Id, b: Id) {
    exists first, last :: Through(g, added, a, b, first, last)
  }

  lemma {:induction false} SplitsAtEdges(g: Graph, added: Graph, p: seq<Id>)
    requires Path(g + added, p)
    ensures Reaches(g, p[0], p[|p| - 1]) || ThroughSome(g, added, p[0], p[|p| - 1])
  {
    var a, b := p[0], p[|p| - 1];
    if |p| == 1 {
      ReachesSelf(g, a);
    } else {
      SplitsAtEdges(g, added, p[1..]);
      var e := (a, p[1]);
      assert (p[0], p[1]) in g + added;
      if e in g {
        PrependStep(g, added, a, p[1], b);
      } else {
        PrependEdge(g, added, e, b);
      }
    }
  }

  lemma PrependStep(g: Graph, added: Graph, a: Id, c: Id, b: Id)
    requires (a, c) in g
    requires Reaches(g, c, b) || ThroughSome(g, added, c, b)
    ensures Reaches(g, a, b) || ThroughSome(g, added, a, b)
  {
    if Reaches(g, c, b) {
      ReachesStep(g, a, c, b);
    } else {
      var first, last :| Through(g, added, c, b, first, last);
      ReachesStep(g, a, c, first.0);
      assert Through(g, added, a, b, first, last);
    }
  }

  lemma PrependEdge(g: Graph, added: Graph, e: (Id, Id), b: Id)
    requires e in added
    requires Reaches(g, e.1, b) || ThroughSome(g, added, e.1, b)
    ensures ThroughSome(g, added, e.0, b)
  {
    ReachesSelf(g, e.0);
    if Reaches(g, e.1, b) {
      ReachesSelf(Links(g, added), e.0);
      assert Through(g, added, e.0, b, e, e);
    } else {
      var first, last :| Through(g, added, e.1, b, first, last);
      assert (e.0, first.0) in Links(g, added);
      ReachesStep(Links(g, added), e.0, first.0, last.0);
      assert Through(g, added, e.0, b, e, last);
    }
  }

  lemma EdgeClosesCycle(g: Graph, a: Id, b: Id)
    requires (a, b) in g && Reaches(g, b, a)
    ensures !Acyclic(g)
  {
    var q :| PathBetween(g, q, b, a);
    var cycle := [a] + q;
    assert Path(g, cycle) && |cycle| > 1 && cycle[0] == cycle[|cycle| - 1];
  }

  /** A closed path through an added edge is a closed path of links. */
  lemma CycleOfLinks(g: Graph, added: Graph, e: (Id, Id))
    requires e in added && Reaches(g + added, e.1, e.0)
    ensures !Acyclic(Links(g, added))
  {
    var links := Links(g, added);
    var p :| PathBetween(g + added, p, e.1, e.0);
    SplitsAtEdges(g, added, p);
    if Reaches(g, e.1, e.0) {
      assert (e.0, e.0) in links;
      ReachesSelf(links, e.0);
      EdgeClosesCycle(links, e.0, e.0);
    } else {
      var first, last :| Through(g, added, e.1, e.0, first, last);
      assert (e.0, first.0) in links && (last.0, e.0) in links;
      ReachesSelf(links, e.0);
      ReachesStep(links, last.0, e.0, e.0);
      ReachesTransitive(links, first.0, last.0, e.0);
      EdgeClosesCycle(links, e.0, first.0);
    }
  }

  lemma {:induction false} LinksArePaths(g: Graph, added: Graph, p: seq<Id>)
    requires Path(Links(g, added), p)
    ensures Reaches(g + added, p[0], p[|p| - 1])
  {
    if |p| == 1 {
      ReachesSelf(g + added, p[0]);
    } else {
      LinksArePaths(g, added, p[1..]);
      assert (p[0], p[1]) in Links(g, added);
      var e, f :| e in added && f in added && Reaches(g, e.1, f.0) && (e.0, f.0) == (p[0], p[1]);
      ReachesInLarger(g, g + added, e.1, f.0);
      ReachesTransitive(g + added, e.1, p[1], p[|p| - 1]);
      ReachesStep(g + added, e.0, e.1, p[|p| - 1]);
    }
  }

  lemma CycleNeedsLinks(g: Graph, added: Graph, p: seq<Id>)
    requires Acyclic(g) && Path(g + added, p) && |p| > 1 && p[0] == p[|p| - 1]
    ensures !Acyclic(Links(g, added))
  {
    assert !Path(g, p);
    var i :| 0 <= i < |p| - 1 && (p[i], p[i + 1]) !in g;
    assert (p[i], p[i + 1]) in g + added;
    CycleReturns(g + added, p, i);
    CycleOfLinks(g, added, (p[i], p[i + 1]));
  }

  lemma LinksMakeCycle(g: Graph, added: Graph, p: seq<Id>)
    requires Path(Links(g, added), p) && |p| > 1 && p[0] == p[|p| - 1]
    ensures !Acyclic(g + added)
  {
    assert (p[0], p[1]) in Links(g, added);
    var e, f :| e in added && f in added && Reaches(g, e.1, f.0) && (e.0, f.0) == (p[0], p[1]);
    LinksArePaths(g, added, p[1..]);
    ReachesInLarger(g, g + added, e.1, f.0);
    ReachesTransitive(g + added, e.1, p[1], p[0]);
    EdgeClosesCycle(g + added, e.0, e.1);
  }

  /** Any number of edges may join an acyclic graph together exactly when their links are acyclic. */
  lemma AddEdgesAcyclicIff(g: Graph, added: Graph)
    requires Acyclic(g)
    ensures Acyclic(g + added) <==> Acyclic(Links(g, added))
  {
    if !Acyclic(g + added) {
      var p :| Path(g + added, p) && |p| > 1 && p[0] == p[|p| - 1];
      CycleNeedsLinks(g, added, p);
    }
    if !Acyclic(Links(g, added)) {
      var p :| Path(Links(g, added), p) && |p| > 1 && p[0] == p[|p| - 1];
      LinksMakeCycle(g, added, p);
    }
  }

  // ---------------------------------------------------------------- a vertex with its edges

  /** A path into vertex t, in a graph where g lacks only the edges at t, enters t from a
      vertex that its start already reaches in g. */
  lemma {:induction false} FirstVisit(g: Graph, h: Graph, t: Id, p: seq<Id>) returns (b: Id)
    requires forall e :: e in h && e.0 != t && e.1 != t ==> e in g
    requires Path(h, p) && p[0] != t && p[|p| - 1] == t
    ensures (b, t) in h && Reaches(g, p[0], b)
    decreases |p|
  {
    assert (p[0], p[1]) in h;
    if p[1] == t {
      b := p[0];
      ReachesSelf(g, b);
    } else {
      assert Path(h, p[1..]);
      b := FirstVisit(g, h, t, p[1..]);
      ReachesStep(g, p[0], p[1], b);
    }
  }

  /** Some successor of t already reaches some predecessor of t without t's own edges. */
  ghost predicate LoopsBack(g: Graph, h: Graph, t: Id) {
    exists a, b :: (t, a) in h && (b, t) in h && Reaches(g, a, b)
  }

  /** A closed path in h either stays inside g or passes through t, and then t loops back. */
  lemma CycleUsesVertex(g: Graph, h: Graph, t: Id, p: seq<Id>)
    requires (t, t) !in h
    requires forall e :: e in h && e.0 != t && e.1 != t ==> e in g
    requires Path(h, p) && p[0] == p[|p| - 1]
    ensures Path(g, p) || LoopsBack(g, h, t)
  {
    if i :| 0 <= i < |p| - 1 && p[i] == t {
      CycleReturns(h, p, i);
      var q :| PathBetween(h, q, p[i + 1], t);
      assert (t, p[i + 1]) in h;
      var b := FirstVisit(g, h, t, q);
    } else {
      forall i | 0 <= i < |p| - 1
        ensures (p[i], p[i + 1]) in g
      {
        assert p[i + 1] != t by {
          assert i + 1 == |p| - 1 ==> p[i + 1] == p[0];
        }
      }
    }
  }

  /** Putting a vertex t with all its edges into an acyclic graph g closes a cycle exactly
      when one of the vertices that t leads to already reaches one that leads to t. */
  lemma AddVertexAcyclicIff(g: Graph, h: Graph, t: Id)
    requires Acyclic(g) && g <= h && (t, t) !in h
    requires forall e :: e in h && e.0 != t && e.1 != t ==> e in g
    ensures Acyclic(h) <==> !LoopsBack(g, h, t)
  {
    if LoopsBack(g, h, t) {
      var a, b :| (t, a) in h && (b, t) in h && Reaches(g, a, b);
      var q :| PathBetween(g, q, a, b);
      var cycle := [t] + q + [t];
      forall i | 0 <= i < |cycle| - 1
        ensures (cycle[i], cycle[i + 1]) in h
      {
        if 0 < i < |q| {
          assert cycle[i] == q[i - 1] && cycle[i + 1] == q[i];
        }
      }
      assert Path(h, cycle) && |cycle| > 1;
    }
    forall p | Path(h, p) && |p| > 1 && p[0] == p[|p| - 1]
      ensures LoopsBack(g, h, t)
    {
      CycleUsesVertex(g, h, t, p);
    }
  }

  ghost predicate StrictlyAbove(g: Graph, y: Id, x: Id) {
    exists z :: (y, z) in g && Reaches(g, z, x)
  }

  lemma AboveItselfIsCycle(g: Graph, x: Id)
    requires StrictlyAbove(g, x, x)
    ensures !Acyclic(g)
  {
    var z :| (x, z) in g && Reaches(g, z, x);
    var q :| PathBetween(g, q, z, x);
    assert Path(g, [x] + q);
  }

  /** In an acyclic graph every non-empty finite set has a member that no member points to. */
  lemma {:induction false} SourceIn(g: Graph, s: set<Id>) returns (source: Id)
    requires Acyclic(g) && s != {}
    ensures source in s && forall y :: y in s ==> (y, source) !in g
    decreases |s|
  {
    var x :| x in s;
    var above := set y | y in s && StrictlyAbove(g, y, x);
    ReachesSelf(g, x);
    if above == {} {
      source := x;
      assert forall y :: y in s ==> y !in above;
    } else {
      if StrictlyAbove(g, x, x) {
        AboveItselfIsCycle(g, x);
      }
      assert above <= s - {x};
      SmallerSet(above, s, x);
      source := SourceIn(g, above);
      var z :| (source, z) in g && Reaches(g, z, x);
      ReachesStep(g, source, z, x);
      assert forall y :: y in s && (y, source) in g ==> y in above;
    }
  }

  lemma SmallerSet(a: set<Id>, s: set<Id>, x: Id)
    requires a <= s && x in s && x !in a
    ensures |a| < |s|
  {
    SubsetSize(a, s - {x});
  }
}
