/** The board of one project whose requests overlap. Creating a column reads the largest position
    and inserts later, without a lock. Reordering and deleting lock the rows they read, which keeps
    them apart from each other but not from new rows; each rewrites the positions at its end. */
module BoardRaces {
  import opened Common
  import opened BoardColumns

  /** What a request will write: a column at a position, or the positions of the columns it read,
      without the one it removes. */
  datatype Plan =
    | Creating(column: Id, name: string, position: int)
    | Rewriting(removed: Option<Id>, ids: seq<Id>)

  /** A request in flight, and how many changes had been committed when it read. */
  datatype Flight = Flight(plan: Plan, stamp: nat)

  datatype System = System(columns: Columns, flights: map<Id, Flight>, changes: nat)

  /** `q` and `order` are the rows in the order in which the database yields and visits them. */
  datatype Event =
    | BeginCreate(handler: Id, column: Id, name: string)
    | BeginReorder(handler: Id, ids: seq<Id>)
    | BeginDelete(handler: Id, column: Id, q: seq<Id>)
    | Finish(handler: Id, order: seq<Id>)

  predicate Locked(s: System) {
    exists h :: h in s.flights && s.flights[h].plan.Rewriting?
  }

  ghost function Top(columns: Columns, s: set<Id>): int
    requires forall c :: c in s ==> c in columns
  {
    if s == {} then -1
    else
      var c :| c in s;
      var below := Top(columns, s - {c});
      if columns[c].position > below then columns[c].position else below
  }

  /** The checks of the three handlers on what they read; None refuses, or waits for the lock. */
  ghost function Planned(p: Id, s: System, e: Event): Option<Plan> {
    match e
    case BeginCreate(_, column, name) => Some(Creating(column, name, Top(s.columns, InProject(s.columns, p)) + 1))
    case BeginReorder(_, ids) =>
      if !Locked(s) && Lists(ids, InProject(s.columns, p)) then Some(Rewriting(None, ids)) else None
    case BeginDelete(_, column, q) =>
      if !Locked(s) && |InProject(s.columns, p)| > 1 && column in InProject(s.columns, p) && Ordered(s.columns, p, q)
      then Some(Rewriting(Some(column), Without(q, column))) else None
    case Finish(_, _) => None
  }

  function Base(columns: Columns, removed: Option<Id>): Columns {
    if removed.Some? then columns - {removed.value} else columns
  }

  /** The columns that the write leaves; None rolls it back. */
  ghost function Written(p: Id, columns: Columns, plan: Plan, order: seq<Id>): Option<Columns> {
    match plan
    case Creating(c, name, position) =>
      if c in columns || (exists d :: d in InProject(columns, p) && columns[d].position == position) then None
      else Some(columns[c := Column(p, name, position)])
    case Rewriting(removed, ids) =>
      if !Lists(order, InProject(Base(columns, removed), p)) then None
      else Rewrite(Base(columns, removed), order, ids)
  }

  ghost function Step(p: Id, s: System, e: Event): System {
    match e
    case Finish(h, order) =>
      if h !in s.flights then s
      else
        var rest, written := s.flights - {h}, Written(p, s.columns, s.flights[h].plan, order);
        if written == None then s.(flights := rest) else System(written.value, rest, s.changes + 1)
    case _ =>
      var plan := Planned(p, s, e);
      if e.handler in s.flights || plan == None then s
      else s.(flights := s.flights[e.handler := Flight(plan.value, s.changes)])
  }

  // ---------------------------------------------------------------- the invariant

  /** The column was created after the request had read the board. */
  predicate Unread(p: Id, columns: Columns, plan: Plan, c: Id)
    requires plan.Rewriting?
  {
    c in InProject(columns, p) && c !in plan.ids && plan.removed != Some(c)
  }

  function ReadCount(plan: Plan): nat
    requires plan.Rewriting?
  {
    |plan.ids| + (if plan.removed.Some? then 1 else 0)
  }

  /** A rewrite still finds the columns it read at the lower positions and new ones only above; if
      nothing was committed since it read, there are none, and the position a creation read is free. */
  ghost predicate Sane(p: Id, s: System, f: Flight) {
    && f.stamp <= s.changes
    && match f.plan
       case Creating(_, _, position) => position >= 0
           && (f.stamp == s.changes ==> position == |InProject(s.columns, p)|)
       case Rewriting(removed, ids) =>
         && Within(ids, InProject(Base(s.columns, removed), p))
         && (removed.Some? ==> removed.value in InProject(s.columns, p))
         && (forall c :: Unread(p, s.columns, f.plan, c) ==> s.columns[c].position >= ReadCount(f.plan))
         && (forall c :: c in InProject(s.columns, p) && !Unread(p, s.columns, f.plan, c) ==>
               s.columns[c].position < ReadCount(f.plan))
         && (f.stamp == s.changes ==> forall c :: !Unread(p, s.columns, f.plan, c))
  }

  ghost predicate Good(p: Id, s: System) {
    && Contiguous(s.columns, p)
    && (forall h :: h in s.flights ==> Sane(p, s, s.flights[h]))
    && (forall g, h :: g in s.flights && h in s.flights && g != h ==>
          !(s.flights[g].plan.Rewriting? && s.flights[h].plan.Rewriting?))
  }

  /** The write would leave a gap: a creation whose position has since become more than one past the
      last, or a completing rewrite that has not read every column. */
  ghost predicate Unsafe(p: Id, s: System, plan: Plan, order: seq<Id>) {
    && Written(p, s.columns, plan, order).Some?
    && match plan
       case Creating(_, _, position) => position > |InProject(s.columns, p)|
       case Rewriting(_, _) => exists c :: Unread(p, s.columns, plan, c)
  }

  ghost predicate UnsafeFinish(p: Id, s: System, e: Event) {
    e.Finish? && e.handler in s.flights && Unsafe(p, s, s.flights[e.handler].plan, e.order)
  }

  // ---------------------------------------------------------------- what the writes do

  lemma {:induction false} TopBounds(columns: Columns, s: set<Id>)
    requires forall c :: c in s ==> c in columns
    ensures forall c :: c in s ==> columns[c].position <= Top(columns, s)
    ensures s == {} ==> Top(columns, s) == -1
    ensures s != {} ==> Top(columns, s) == -1 || exists c :: c in s && columns[c].position == Top(columns, s)
    decreases s
  {
    if s != {} {
      var c :| c in s && Top(columns, s) == var below := Top(columns, s - {c});
                                            if columns[c].position > below then columns[c].position else below;
      TopBounds(columns, s - {c});
      assert forall d :: d in s ==> d == c || d in s - {c};
    }
  }

  /** On a contiguous board the next position is the number of columns. */
  lemma TopOfContiguous(p: Id, columns: Columns)
    requires Contiguous(columns, p)
    ensures Top(columns, InProject(columns, p)) == |InProject(columns, p)| - 1
  {
    var s := InProject(columns, p);
    TopBounds(columns, s);
    if s != {} {
      var c := ColumnAt(columns, p, |s| - 1);
      assert columns[c].position <= Top(columns, s);
    }
  }

  lemma CreationContiguousIff(p: Id, columns: Columns, c: Id, name: string, position: int)
    requires Contiguous(columns, p) && position >= 0
    requires Written(p, columns, Creating(c, name, position), []).Some?
    ensures position >= |InProject(columns, p)|
    ensures Contiguous(columns[c := Column(p, name, position)], p) <==> position == |InProject(columns, p)|
  {
    var n, after := |InProject(columns, p)|, columns[c := Column(p, name, position)];
    assert InProject(after, p) == InProject(columns, p) + {c};
    if position < n {
      var d := ColumnAt(columns, p, position);
      assert false;
    }
    assert after[c].position == position;
  }

  lemma PlacedContiguously(p: Id, columns: Columns, ids: seq<Id>)
    requires Lists(ids, InProject(columns, p))
    ensures Contiguous(Placed(columns, ids), p)
  {
    assert InProject(Placed(columns, ids), p) == InProject(columns, p);
    ListsSize(ids, InProject(columns, p));
  }

  /** A completed rewrite leaves a contiguous board exactly when its list has all the columns. */
  lemma RewriteContiguousIff(p: Id, s: System, f: Flight, order: seq<Id>)
    requires Contiguous(s.columns, p) && Sane(p, s, f) && f.plan.Rewriting?
    requires Written(p, s.columns, f.plan, order).Some?
    ensures Contiguous(Written(p, s.columns, f.plan, order).value, p) <==> !exists c :: Unread(p, s.columns, f.plan, c)
  {
    BaseColumns(p, s.columns, f.plan.removed);
    PartialRewrite(Base(s.columns, f.plan.removed), p, order, f.plan.ids);
    if c :| Unread(p, s.columns, f.plan, c) {
      UnreadLeavesGap(p, s, f, order);
    } else {
      AllReadContiguous(p, s, f, order);
    }
  }

  lemma AllReadContiguous(p: Id, s: System, f: Flight, order: seq<Id>)
    requires Contiguous(s.columns, p) && Sane(p, s, f) && f.plan.Rewriting?
    requires Written(p, s.columns, f.plan, order).Some? && forall c :: !Unread(p, s.columns, f.plan, c)
    ensures Contiguous(Written(p, s.columns, f.plan, order).value, p)
  {
    var ids, base := f.plan.ids, Base(s.columns, f.plan.removed);
    BaseColumns(p, s.columns, f.plan.removed);
    forall x
      ensures x in ids <==> x in InProject(base, p)
    {
      assert x in InProject(base, p) ==> !Unread(p, s.columns, f.plan, x);
    }
    RewriteResult(base, p, order, ids);
    PlacedContiguously(p, base, ids);
  }

  lemma BaseColumns(p: Id, columns: Columns, removed: Option<Id>)
    requires Contiguous(columns, p)
    ensures InProject(Base(columns, removed), p)
            == InProject(columns, p) - (if removed.Some? then {removed.value} else {})
    ensures DistinctPositions(Base(columns, removed), p)
    ensures forall c :: c in InProject(Base(columns, removed), p) ==> Base(columns, removed)[c].position >= 0
  {
  }

  /** The last column is one that was not read, and it ends up beyond the number of columns. */
  lemma UnreadLeavesGap(p: Id, s: System, f: Flight, order: seq<Id>)
    requires Contiguous(s.columns, p) && Sane(p, s, f) && f.plan.Rewriting?
    requires Lists(order, InProject(Base(s.columns, f.plan.removed), p)) && exists c :: Unread(p, s.columns, f.plan, c)
    ensures !Contiguous(Placed(Shifted(Base(s.columns, f.plan.removed), order), f.plan.ids), p)
  {
    var base, n := Base(s.columns, f.plan.removed), |InProject(s.columns, p)|;
    var c :| Unread(p, s.columns, f.plan, c);
    var last := ColumnAt(s.columns, p, n - 1);
    assert Unread(p, s.columns, f.plan, last) by {
      assert s.columns[c].position <= s.columns[last].position;
    }
    BaseColumns(p, s.columns, f.plan.removed);
    SubsetSize(InProject(base, p), InProject(s.columns, p));
    assert last in order;
    LeftOut(p, base, order, f.plan.ids, last);
  }

  /** A column that the list leaves out ends up SHIFT higher. */
  lemma LeftOut(p: Id, columns: Columns, order: seq<Id>, ids: seq<Id>, c: Id)
    requires c in InProject(columns, p) && c in order && c !in ids
    ensures var after := Placed(Shifted(columns, order), ids);
            && InProject(after, p) == InProject(columns, p)
            && after[c].position == columns[c].position + SHIFT
  {
  }

  // ---------------------------------------------------------------- every interleaving

  lemma WriteContiguousIff(p: Id, s: System, f: Flight, order: seq<Id>)
    requires Contiguous(s.columns, p) && Sane(p, s, f) && Written(p, s.columns, f.plan, order).Some?
    ensures Contiguous(Written(p, s.columns, f.plan, order).value, p) <==> !Unsafe(p, s, f.plan, order)
  {
    match f.plan
    case Creating(c, name, position) => CreationContiguousIff(p, s.columns, c, name, position);
    case Rewriting(_, _) => RewriteContiguousIff(p, s, f, order);
  }

  /** A safe write keeps what the other requests know. */
  lemma WriteKeepsSane(p: Id, s: System, f: Flight, order: seq<Id>, g: Flight)
    requires Contiguous(s.columns, p) && Sane(p, s, f) && Sane(p, s, g) && !(f.plan.Rewriting? && g.plan.Rewriting?)
    requires Written(p, s.columns, f.plan, order).Some? && !Unsafe(p, s, f.plan, order)
    ensures Sane(p, System(Written(p, s.columns, f.plan, order).value, s.flights, s.changes + 1), g)
  {
    if f.plan.Creating? && g.plan.Rewriting? {
      CreationKeepsRewrite(p, s, f, order, g);
    }
  }

  lemma CreationKeepsRewrite(p: Id, s: System, f: Flight, order: seq<Id>, g: Flight)
    requires Contiguous(s.columns, p) && Sane(p, s, f) && Sane(p, s, g) && f.plan.Creating? && g.plan.Rewriting?
    requires Written(p, s.columns, f.plan, order).Some? && !Unsafe(p, s, f.plan, order)
    ensures Sane(p, System(Written(p, s.columns, f.plan, order).value, s.flights, s.changes + 1), g)
  {
    var c := f.plan.column;
    CreationContiguousIff(p, s.columns, c, f.plan.name, f.plan.position);
    ReadFits(p, s, g);
    NewColumnUnread(p, s.columns, g.plan, c, f.plan.name, f.plan.position);
  }

  /** A new column is unread, and the others are as before. */
  lemma NewColumnUnread(p: Id, columns: Columns, plan: Plan, c: Id, name: string, position: int)
    requires plan.Rewriting? && c !in columns && Within(plan.ids, InProject(Base(columns, plan.removed), p))
    requires plan.removed.Some? ==> plan.removed.value in InProject(columns, p)
    ensures var after := columns[c := Column(p, name, position)];
            && Within(plan.ids, InProject(Base(after, plan.removed), p))
            && (plan.removed.Some? ==> plan.removed.value in InProject(after, p))
            && forall d :: Unread(p, after, plan, d) <==> d == c || Unread(p, columns, plan, d)
  {
    var after := columns[c := Column(p, name, position)];
    forall i | 0 <= i < |plan.ids|
      ensures plan.ids[i] in InProject(Base(after, plan.removed), p) && plan.ids[i] != c
    {
      assert plan.ids[i] in InProject(Base(columns, plan.removed), p);
    }
  }

  /** A rewrite has read no more columns than there are. */
  lemma ReadFits(p: Id, s: System, g: Flight)
    requires Contiguous(s.columns, p) && Sane(p, s, g) && g.plan.Rewriting?
    ensures ReadCount(g.plan) <= |InProject(s.columns, p)|
  {
    var ids, removed := g.plan.ids, g.plan.removed;
    var read := set x | x in ids;
    ListsSize(ids, read);
    BaseColumns(p, s.columns, removed);
    assert read <= InProject(Base(s.columns, removed), p);
    SubsetSize(read, InProject(Base(s.columns, removed), p));
  }

  lemma BeginKeepsGood(p: Id, s: System, e: Event)
    requires Good(p, s) && !e.Finish?
    ensures Good(p, Step(p, s, e))
  {
    var plan := Planned(p, s, e);
    if plan.Some? && e.handler !in s.flights {
      match e {
        case BeginCreate(_, _, _) => TopOfContiguous(p, s.columns);
        case BeginReorder(_, ids) => ReorderIsSane(p, s, ids);
        case BeginDelete(_, column, q) => DeletionIsSane(p, s, column, q);
      }
      FlightKeepsGood(p, s, e.handler, Flight(plan.value, s.changes));
    }
  }

  lemma FlightKeepsGood(p: Id, s: System, h: Id, f: Flight)
    requires Good(p, s) && h !in s.flights && Sane(p, s, f) && (f.plan.Rewriting? ==> !Locked(s))
    ensures Good(p, s.(flights := s.flights[h := f]))
  {
  }

  lemma ReorderIsSane(p: Id, s: System, ids: seq<Id>)
    requires Contiguous(s.columns, p) && Lists(ids, InProject(s.columns, p))
    ensures Sane(p, s, Flight(Rewriting(None, ids), s.changes))
  {
    ListsSize(ids, InProject(s.columns, p));
  }

  lemma DeletionIsSane(p: Id, s: System, column: Id, q: seq<Id>)
    requires Contiguous(s.columns, p) && column in InProject(s.columns, p) && Ordered(s.columns, p, q)
    ensures Sane(p, s, Flight(Rewriting(Some(column), Without(q, column)), s.changes))
  {
    WithoutMembers(q, column);
    var ids := Without(q, column);
    BaseColumns(p, s.columns, Some(column));
    forall i | 0 <= i < |ids|
      ensures ids[i] in InProject(Base(s.columns, Some(column)), p)
    {
      assert ids[i] in ids;
    }
    ListsSize(ids, InProject(s.columns, p) - {column});
  }

  /** One event leaves a contiguous board contiguous exactly when it is not an unsafe write. */
  lemma StepContiguousIff(p: Id, s: System, e: Event)
    requires Good(p, s)
    ensures Contiguous(Step(p, s, e).columns, p) <==> !UnsafeFinish(p, s, e)
    ensures Contiguous(Step(p, s, e).columns, p) ==> Good(p, Step(p, s, e))
  {
    if e.Finish? {
      if e.handler in s.flights && Written(p, s.columns, s.flights[e.handler].plan, e.order).Some? {
        var f := s.flights[e.handler];
        WriteContiguousIff(p, s, f, e.order);
        if !Unsafe(p, s, f.plan, e.order) {
          forall h | h in s.flights && h != e.handler
            ensures Sane(p, Step(p, s, e), s.flights[h])
          {
            WriteKeepsSane(p, s, f, e.order, s.flights[h]);
          }
        }
      }
    } else {
      BeginKeepsGood(p, s, e);
    }
  }

  ghost predicate AlwaysContiguous(p: Id, s: System, es: seq<Event>)
    decreases |es|
  {
    Contiguous(s.columns, p) && (es != [] ==> AlwaysContiguous(p, Step(p, s, es[0]), es[1..]))
  }

  ghost predicate NeverUnsafe(p: Id, s: System, es: seq<Event>)
    decreases |es|
  {
    es != [] ==> !UnsafeFinish(p, s, es[0]) && NeverUnsafe(p, Step(p, s, es[0]), es[1..])
  }

  /** Over any interleaving of creations, reorders and deletions the positions stay 0 .. n - 1
      throughout exactly when no request in it is written unsafely. */
  lemma {:induction false} RunContiguousIff(p: Id, s: System, es: seq<Event>)
    requires Good(p, s)
    ensures AlwaysContiguous(p, s, es) <==> NeverUnsafe(p, s, es)
    decreases |es|
  {
    if es != [] {
      StepContiguousIff(p, s, es[0]);
      if Contiguous(Step(p, s, es[0]).columns, p) {
        RunContiguousIff(p, Step(p, s, es[0]), es[1..]);
      }
    }
  }

  /** The request writes after a change that was committed since it read. */
  predicate Overtaken(s: System, e: Event) {
    e.Finish? && e.handler in s.flights && s.flights[e.handler].stamp != s.changes
  }

  ghost predicate NeverOvertaken(p: Id, s: System, es: seq<Event>)
    decreases |es|
  {
    es != [] ==> !Overtaken(s, es[0]) && NeverOvertaken(p, Step(p, s, es[0]), es[1..])
  }

  /** Requests that do not straddle each other's commits never harm the board. */
  lemma {:induction false} OnlyOverlapsHarm(p: Id, s: System, es: seq<Event>)
    requires Good(p, s) && NeverOvertaken(p, s, es)
    ensures AlwaysContiguous(p, s, es)
    decreases |es|
  {
    if es != [] {
      assert UnsafeFinish(p, s, es[0]) ==> Sane(p, s, s.flights[es[0].handler]);
      StepContiguousIff(p, s, es[0]);
      OnlyOverlapsHarm(p, Step(p, s, es[0]), es[1..]);
    }
  }

  // ---------------------------------------------------------------- two runs that break a board

  ghost function Run(p: Id, s: System, es: seq<Event>): System
    decreases |es|
  {
    if es == [] then s else Run(p, Step(p, s, es[0]), es[1..])
  }

  lemma RunTwo(p: Id, s: System, a: Event, b: Event)
    ensures Run(p, s, [a, b]) == Step(p, Step(p, s, a), b)
  {
    assert [a, b][1..] == [b] && [b][1..] == [];
    assert Run(p, Step(p, s, a), [b]) == Run(p, Step(p, Step(p, s, a), b), []);
  }

  lemma {:induction false} RunSplits(p: Id, s: System, a: seq<Event>, b: seq<Event>)
    ensures Run(p, s, a + b) == Run(p, Run(p, s, a), b)
    decreases |a|
  {
    if a == [] {
      assert a + b == b;
    } else {
      assert (a + b)[1..] == a[1..] + b;
      RunSplits(p, Step(p, s, a[0]), a[1..], b);
    }
  }

  /** A creation, from its read to its commit, while whatever else is in flight waits. */
  lemma WholeCreation(p: Id, s: System, h: Id, c: Id, name: string)
    requires Good(p, s) && h !in s.flights && c !in s.columns
    ensures var end := Run(p, s, [BeginCreate(h, c, name), Finish(h, [])]);
            end == System(s.columns[c := Column(p, name, |InProject(s.columns, p)|)], s.flights, s.changes + 1)
                && Good(p, end)
  {
    var n, mid := |InProject(s.columns, p)|, Step(p, s, BeginCreate(h, c, name));
    TopOfContiguous(p, s.columns);
    RunTwo(p, s, BeginCreate(h, c, name), Finish(h, []));
    assert mid.flights[h].plan == Creating(c, name, n) && mid.flights - {h} == s.flights;
    StepContiguousIff(p, s, BeginCreate(h, c, name));
    StepContiguousIff(p, mid, Finish(h, []));
  }

  /** Read and written with nothing in between, a request leaves what its plan writes. */
  lemma Undisturbed(p: Id, s: System, begin: Event, plan: Plan, order: seq<Id>)
    requires !begin.Finish? && begin.handler !in s.flights && Planned(p, s, begin) == Some(plan)
    requires Written(p, s.columns, plan, order).Some?
    ensures Run(p, s, [begin, Finish(begin.handler, order)])
            == System(Written(p, s.columns, plan, order).value, s.flights, s.changes + 1)
  {
    RunTwo(p, s, begin, Finish(begin.handler, order));
    var mid := Step(p, s, begin);
    assert mid == s.(flights := s.flights[begin.handler := Flight(plan, s.changes)]);
    assert mid.flights - {begin.handler} == s.flights;
  }

  lemma ReorderWritten(p: Id, columns: Columns, ids: seq<Id>, order: seq<Id>)
    requires Contiguous(columns, p) && |InProject(columns, p)| <= SHIFT
    requires Lists(ids, InProject(columns, p)) && Lists(order, InProject(columns, p))
    ensures Written(p, columns, Rewriting(None, ids), order) == Some(Placed(columns, ids))
    ensures forall i :: 0 <= i < |ids| ==> Placed(columns, ids)[ids[i]] == columns[ids[i]].(position := i)
  {
    ListsSize(ids, InProject(columns, p));
    RewriteResult(columns, p, order, ids);
    forall i | 0 <= i < |ids|
      ensures Placed(columns, ids)[ids[i]] == columns[ids[i]].(position := i)
    {
      IndexOfAt(ids, i);
    }
  }

  /** A whole reorder, from its read to its commit: it is carried out, puts ids[i] at i and touches
      nothing else, in whatever order the rows are visited. */
  lemma WholeReorder(p: Id, s: System, h: Id, ids: seq<Id>, order: seq<Id>)
    requires Good(p, s) && h !in s.flights && !Locked(s) && |InProject(s.columns, p)| <= SHIFT
    requires Lists(ids, InProject(s.columns, p)) && Lists(order, InProject(s.columns, p))
    ensures var end := Run(p, s, [BeginReorder(h, ids), Finish(h, order)]);
            && end.flights == s.flights && end.changes == s.changes + 1 && end.columns.Keys == s.columns.Keys
            && (forall i :: 0 <= i < |ids| ==> end.columns[ids[i]] == s.columns[ids[i]].(position := i))
            && (forall c :: c in s.columns && c !in ids ==> end.columns[c] == s.columns[c])
  {
    ReorderWritten(p, s.columns, ids, order);
    Undisturbed(p, s, BeginReorder(h, ids), Rewriting(None, ids), order);
  }

  lemma DeletionWritten(p: Id, s: System, column: Id, q: seq<Id>, order: seq<Id>)
    requires Contiguous(s.columns, p) && 1 < |InProject(s.columns, p)| <= SHIFT
    requires column in InProject(s.columns, p) && Ordered(s.columns, p, q)
    requires Lists(order, InProject(s.columns, p) - {column})
    ensures Written(p, s.columns, Rewriting(Some(column), Without(q, column)), order) == Some(Closed(s.columns, column))
  {
    DeletionIsSane(p, s, column, q);
    RewriteCompletes(p, s, Flight(Rewriting(Some(column), Without(q, column)), s.changes), order, column);
    BaseColumns(p, s.columns, Some(column));
    GapCloses(s.columns, p, column, q, order);
  }

  /** A whole deletion: the column goes, those of its project behind it move up by one, and everything
      else about every column stays. */
  lemma WholeDeletion(p: Id, s: System, h: Id, column: Id, q: seq<Id>, order: seq<Id>)
    requires Good(p, s) && h !in s.flights && !Locked(s) && 1 < |InProject(s.columns, p)| <= SHIFT
    requires column in InProject(s.columns, p) && Ordered(s.columns, p, q)
    requires Lists(order, InProject(s.columns, p) - {column})
    ensures var end := Run(p, s, [BeginDelete(h, column, q), Finish(h, order)]);
            && end.flights == s.flights && end.changes == s.changes + 1 && end.columns.Keys == s.columns.Keys - {column}
            && forall c :: c in end.columns ==>
                 && end.columns[c].project == s.columns[c].project && end.columns[c].name == s.columns[c].name
                 && end.columns[c].position == s.columns[c].position
                    - (if s.columns[c].project == p && s.columns[c].position > s.columns[column].position then 1 else 0)
  {
    DeletionWritten(p, s, column, q, order);
    Undisturbed(p, s, BeginDelete(h, column, q), Rewriting(Some(column), Without(q, column)), order);
  }

  /** A column created and committed while a deletion is under way ends up out of reach: the board
      is no longer contiguous. */
  lemma CreatedDuringDeletion(p: Id, s: System, column: Id, q: seq<Id>, c: Id, name: string, order: seq<Id>)
    requires Good(p, s) && s.flights == map[] && 1 < |InProject(s.columns, p)| < SHIFT
    requires column in InProject(s.columns, p) && Ordered(s.columns, p, q) && c !in s.columns
    requires Lists(order, InProject(s.columns, p) - {column} + {c})
    ensures var es := [BeginDelete(0, column, q)] + [BeginCreate(1, c, name), Finish(1, [])] + [Finish(0, order)];
            !Contiguous(Run(p, s, es).columns, p)
  {
    var begin, create := BeginDelete(0, column, q), [BeginCreate(1, c, name), Finish(1, [])];
    var plan, s1 := Rewriting(Some(column), Without(q, column)), Step(p, s, begin);
    DeletionBegins(p, s, column, q);
    WholeCreation(p, s1, 1, c, name);
    LateColumnUnread(p, s.columns, column, q, c, name);
    var s2 := Run(p, s1, create);
    LateColumnBreaks(p, s2, plan, order, column, c);
    RunOne(p, s, begin);
    RunOne(p, s2, Finish(0, order));
    RunSplits(p, s, [begin], create);
    RunSplits(p, s, [begin] + create, [Finish(0, order)]);
  }

  lemma DeletionBegins(p: Id, s: System, column: Id, q: seq<Id>)
    requires Good(p, s) && s.flights == map[] && 1 < |InProject(s.columns, p)|
    requires column in InProject(s.columns, p) && Ordered(s.columns, p, q)
    ensures var after := Step(p, s, BeginDelete(0, column, q));
            && after == s.(flights := map[0 := Flight(Rewriting(Some(column), Without(q, column)), s.changes)])
            && Good(p, after)
  {
    StepContiguousIff(p, s, BeginDelete(0, column, q));
  }

  lemma LateColumnUnread(p: Id, columns: Columns, column: Id, q: seq<Id>, c: Id, name: string)
    requires column in InProject(columns, p) && Ordered(columns, p, q) && c !in columns
    ensures var after := columns[c := Column(p, name, |InProject(columns, p)|)];
            && InProject(after, p) == InProject(columns, p) + {c}
            && InProject(after, p) - {column} == InProject(columns, p) - {column} + {c}
            && |InProject(after, p)| == |InProject(columns, p)| + 1
            && Unread(p, after, Rewriting(Some(column), Without(q, column)), c)
  {
    var after := columns[c := Column(p, name, |InProject(columns, p)|)];
    assert InProject(after, p) == InProject(columns, p) + {c};
    WithoutMembers(q, column);
    assert c !in q;
  }

  /** The deletion's rewrite completes without the column it has not read. */
  lemma LateColumnBreaks(p: Id, s: System, plan: Plan, order: seq<Id>, column: Id, c: Id)
    requires Good(p, s) && 0 in s.flights && s.flights[0].plan == plan && plan.Rewriting?
            && plan.removed == Some(column)
    requires |InProject(s.columns, p)| <= SHIFT && Unread(p, s.columns, plan, c)
    requires Lists(order, InProject(s.columns, p) - {column})
    ensures !Contiguous(Step(p, s, Finish(0, order)).columns, p)
  {
    assert Sane(p, s, s.flights[0]);
    RewriteCompletes(p, s, s.flights[0], order, column);
    StepContiguousIff(p, s, Finish(0, order));
  }

  lemma RunOne(p: Id, s: System, e: Event)
    ensures Run(p, s, [e]) == Step(p, s, e)
  {
    assert [e][1..] == [];
    assert Run(p, Step(p, s, e), []) == Step(p, s, e);
  }

  lemma RewriteCompletes(p: Id, s: System, f: Flight, order: seq<Id>, column: Id)
    requires Contiguous(s.columns, p) && |InProject(s.columns, p)| <= SHIFT && column in InProject(s.columns, p)
    requires f.plan.Rewriting? && f.plan.removed == Some(column) && Sane(p, s, f)
    requires Lists(order, InProject(s.columns, p) - {column})
    ensures Written(p, s.columns, f.plan, order).Some?
  {
    BaseColumns(p, s.columns, Some(column));
    ReadFits(p, s, f);
    PartialRewrite(Base(s.columns, Some(column)), p, order, f.plan.ids);
  }
}
