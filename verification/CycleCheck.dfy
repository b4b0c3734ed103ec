/** The depth-first search that guards every new task dependency. */
module CycleCheck {
  import opened Common
  import opened Reachability

  function EdgeSet(edges: seq<(Id, Id)>): (g: Graph) {
    set e | e in edges
  }

  /** The successors that an adjacency table lists for a vertex. */
  function Neighbours(adjacency: map<Id, set<Id>>, v: Id): set<Id> {
    if v in adjacency then adjacency[v] else {}
  }

  method BuildAdjacency(edges: seq<(Id, Id)>) returns (adjacency: map<Id, set<Id>>)
    ensures forall a: Id, b: Id :: b in Neighbours(adjacency, a) <==> (a, b) in EdgeSet(edges)
  {
    adjacency := map[];
    for i := 0 to |edges|
      invariant forall a: Id, b: Id :: b in Neighbours(adjacency, a) <==> exists j :: 0 <= j < i && edges[j] == (a, b)
    {
      var (source, target) := edges[i];
      adjacency := adjacency[source := Neighbours(adjacency, source) + {target}];
    }
  }

  /** What the search has established: everything met is reachable from the start, and every
      edge out of an expanded vertex leads to a vertex that is expanded or still on the stack. */
  ghost predicate Searched(g: Graph, start: Id, goal: Id, stack: seq<Id>, seen: set<Id>) {
    && (start in stack || start in seen)
    && goal !in seen
    && (forall x :: x in stack || x in seen ==> Reaches(g, start, x))
    && (forall e :: e in g && e.0 in seen ==> e.1 in seen || e.1 in stack)
  }

  /** Expanding the popped vertex keeps the search sound. */
  lemma ExpandKeeps(g: Graph, start: Id, goal: Id, stack: seq<Id>, current: Id, seen: set<Id>, next: seq<Id>)
    requires Searched(g, start, goal, stack + [current], seen) && current != goal
    requires forall x :: x in next <==> (current, x) in g
    ensures Searched(g, start, goal, stack + next, seen + {current})
  {
    assert current in stack + [current];
    forall x | (current, x) in g
      ensures Reaches(g, start, x)
    {
      ReachesSelf(g, x);
      ReachesStep(g, current, x, x);
      ReachesTransitive(g, start, current, x);
    }
    assert forall x :: x in stack ==> x in stack + [current];
  }

  lemma SkipKeeps(g: Graph, start: Id, goal: Id, stack: seq<Id>, current: Id, seen: set<Id>)
    requires Searched(g, start, goal, stack + [current], seen) && current in seen
    ensures Searched(g, start, goal, stack, seen)
  {
    assert forall x :: x in stack + [current] <==> x in stack || x == current;
  }

  /** An exhausted search has seen a closed set, so it missed nothing. */
  lemma ExhaustedSearch(g: Graph, start: Id, goal: Id, seen: set<Id>)
    requires Searched(g, start, goal, [], seen)
    ensures !Reaches(g, start, goal)
  {
    assert Closed(g, seen);
    if Reaches(g, start, goal) {
      ReachStaysInside(g, seen, start, goal);
    }
  }

  ghost function Vertices(start: Id, g: Graph): (s: set<Id>)
    ensures start in s && forall e :: e in g ==> e.1 in s
  {
    {start} + set e | e in g :: e.1
  }

  /** True exactly when the edge blocker -> blocked would close a cycle. The stack may hold
      duplicates; a vertex is expanded only the first time it is popped. */
  method WouldCreateDependencyCycle(edges: seq<(Id, Id)>, blocker: Id, blocked: Id) returns (cycle: bool)
    ensures cycle <==> blocker == blocked || Reaches(EdgeSet(edges), blocked, blocker)
  {
    if blocker == blocked {
      return true;
    }
    ghost var g := EdgeSet(edges);
    ghost var vertices := Vertices(blocked, g);
    var adjacency := BuildAdjacency(edges);
    var stack := [blocked];
    var seen: set<Id> := {};
    ReachesSelf(g, blocked);
    while stack != []
      invariant Searched(g, blocked, blocker, stack, seen)
      invariant forall x :: x in stack ==> x in vertices
      decreases vertices - seen, |stack|
    {
      var current := stack[|stack| - 1];
      ghost var before := stack;
      assert current in before;
      stack := stack[..|stack| - 1];
      assert before == stack + [current];
      if current == blocker {
        return true;
      }
      if current in seen {
        SkipKeeps(g, blocked, blocker, stack, current, seen);
        continue;
      }
      var next := Enumerate(Neighbours(adjacency, current));
      ExpandKeeps(g, blocked, blocker, stack, current, seen, next);
      seen := seen + {current};
      stack := stack + next;
    }
    ExhaustedSearch(g, blocked, blocker, seen);
    return false;
  }
}
