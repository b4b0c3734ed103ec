/** Board columns: contiguous positions per project, rewritten row by row under the immediate
    UNIQUE(project, position) constraint, and the tasks that sit in the columns. */
module BoardColumns {
  import opened Common

  /** A column row; `name` stands for the stripped, lower-cased name. */
  datatype Column = Column(project: Id, name: string, position: int)

  datatype TaskRow = TaskRow(column: Id, version: int)

  type Columns = map<Id, Column>

  datatype State = State(columns: Columns, tasks: map<Id, TaskRow>, archived: set<Id>)

  datatype Command =
    | NewProject(project: Id, ids: seq<Id>, names: seq<string>)
    | CreateColumn(project: Id, column: Id, name: string)
    | ReorderColumns(project: Id, ids: seq<Id>)
    | DeleteColumn(project: Id, column: Id, moveTo: Option<Id>)
    | PutTask(task: Id, column: Id)

  datatype Reply = Done | Conflict | NotFound | Invalid | IntegrityError

  const SHIFT := 10000

  function InProject(columns: Columns, project: Id): set<Id> {
    set c | c in columns && columns[c].project == project
  }

  ghost predicate NoRepeats(q: seq<Id>) {
    forall i, j :: 0 <= i < j < |q| ==> q[i] != q[j]
  }

  /** q lists the members of s, each once. */
  ghost predicate Lists(q: seq<Id>, s: set<Id>) {
    NoRepeats(q) && (forall x :: x in q <==> x in s) && forall i :: 0 <= i < |q| ==> q[i] in s
  }

  /** q lists some members of s, each once. */
  ghost predicate Within(q: seq<Id>, s: set<Id>) {
    NoRepeats(q) && forall i :: 0 <= i < |q| ==> q[i] in s
  }

  function IndexOf(q: seq<Id>, x: Id): (i: nat)
    requires x in q
    ensures i < |q| && q[i] == x
  {
    if q[0] == x then 0 else 1 + IndexOf(q[1..], x)
  }

  ghost predicate DistinctPositions(columns: Columns, project: Id) {
    forall c, d :: c in InProject(columns, project) && d in InProject(columns, project) && c != d
      ==> columns[c].position != columns[d].position
  }

  /** The positions of the project's columns are exactly 0, 1, ..., n - 1, each used once. */
  ghost predicate Contiguous(columns: Columns, project: Id) {
    && DistinctPositions(columns, project)
    && forall c :: c in InProject(columns, project) ==> 0 <= columns[c].position < |InProject(columns, project)|
  }

  /** Every project's board is contiguous and every task sits in an existing column. */
  ghost predicate Valid(s: State) {
    && (forall p :: Contiguous(s.columns, p))
    && (forall t :: t in s.tasks ==> s.tasks[t].column in s.columns)
  }

  // ---------------------------------------------------------------- row writes

  /** The UNIQUE constraint, checked when one row is written. */
  predicate Clashes(columns: Columns, c: Id, position: int)
    requires c in columns
  {
    exists d :: d in columns && d != c && columns[d].project == columns[c].project && columns[d].position == position
  }

  function Write(columns: Columns, c: Id, position: int): Columns
    requires c in columns
  {
    columns[c := columns[c].(position := position)]
  }

  /** `position = position + SHIFT`, visiting the rows in the given physical order; the first
      clash aborts the statement. */
  ghost function ShiftRows(columns: Columns, order: seq<Id>): Option<Columns>
    decreases |order|
  {
    if order == [] then Some(columns)
    else if order[0] !in columns then ShiftRows(columns, order[1..])
    else
      var position := columns[order[0]].position + SHIFT;
      if Clashes(columns, order[0], position) then None
      else ShiftRows(Write(columns, order[0], position), order[1..])
  }

  /** Gives the listed columns the positions k, k + 1, ... one statement at a time. */
  ghost function AssignRows(columns: Columns, ids: seq<Id>, k: nat): Option<Columns>
    decreases |ids|
  {
    if ids == [] then Some(columns)
    else if ids[0] !in columns then AssignRows(columns, ids[1..], k + 1)
    else if Clashes(columns, ids[0], k) then None
    else AssignRows(Write(columns, ids[0], k), ids[1..], k + 1)
  }

  /** The two phases of a rewrite. */
  ghost function Rewrite(columns: Columns, order: seq<Id>, ids: seq<Id>): Option<Columns> {
    match ShiftRows(columns, order)
    case None => None
    case Some(shifted) => AssignRows(shifted, ids, 0)
  }

  function Shifted(columns: Columns, done: seq<Id>): Columns {
    map c | c in columns :: if c in done then columns[c].(position := columns[c].position + SHIFT) else columns[c]
  }

  function Placed(columns: Columns, ids: seq<Id>): Columns {
    map c | c in columns :: if c in ids then columns[c].(position := IndexOf(ids, c)) else columns[c]
  }

  /** Two columns of the project whose positions differ by exactly SHIFT. */
  ghost predicate ShiftPair(columns: Columns, project: Id) {
    exists c, d :: c in InProject(columns, project) && d in InProject(columns, project)
                   && columns[d].position == columns[c].position + SHIFT
  }

  lemma IndexOfAt(q: seq<Id>, i: nat)
    requires NoRepeats(q) && i < |q|
    ensures IndexOf(q, q[i]) == i
  {
  }

  /** Half-way through the shift the next row can only clash with a column SHIFT above it. */
  lemma ShiftClash(columns: Columns, project: Id, done: seq<Id>, c: Id)
    requires DistinctPositions(columns, project) && c in InProject(columns, project) && c !in done
    requires Clashes(Shifted(columns, done), c, columns[c].position + SHIFT)
    ensures ShiftPair(columns, project)
  {
    var now := Shifted(columns, done);
    var d :| d in now && d != c && now[d].project == now[c].project && now[d].position == columns[c].position + SHIFT;
    assert d in InProject(columns, project);
  }

  lemma {:induction false} ShiftFrom(columns: Columns, project: Id, order: seq<Id>, j: nat)
    requires Lists(order, InProject(columns, project)) && DistinctPositions(columns, project) && j <= |order|
    ensures var r := ShiftRows(Shifted(columns, order[..j]), order[j..]);
            && (r.Some? ==> r.value == Shifted(columns, order))
            && (!ShiftPair(columns, project) ==> r.Some?)
    decreases |order| - j
  {
    if j == |order| {
      assert order[..j] == order;
    } else {
      var now, c := Shifted(columns, order[..j]), order[j];
      assert c in order && c !in order[..j];
      var position := columns[c].position + SHIFT;
      assert order[..j + 1] == order[..j] + [c] && order[j..][1..] == order[j + 1..];
      assert Write(now, c, position) == Shifted(columns, order[..j + 1]);
      if Clashes(now, c, position) {
        ShiftClash(columns, project, order[..j], c);
      }
      ShiftFrom(columns, project, order, j + 1);
    }
  }

  lemma PlacedNext(columns: Columns, ids: seq<Id>, j: nat)
    requires NoRepeats(ids) && j < |ids| && ids[j] in columns
    ensures Write(Placed(columns, ids[..j]), ids[j], j) == Placed(columns, ids[..j + 1])
  {
    var before, after := ids[..j], ids[..j + 1];
    assert after == before + [ids[j]];
    forall c | c in columns && c in before
      ensures IndexOf(before, c) == IndexOf(after, c)
    {
      IndexOfAt(after, IndexOf(before, c));
    }
    IndexOfAt(after, j);
  }

  lemma {:induction false} AssignFrom(columns: Columns, project: Id, ids: seq<Id>, j: nat)
    requires Within(ids, InProject(columns, project)) && j <= |ids|
    ensures var r := AssignRows(Placed(columns, ids[..j]), ids[j..], j);
            && (r.Some? ==> r.value == Placed(columns, ids))
            && ((forall c :: c in InProject(columns, project) ==> columns[c].position >= |ids|) ==> r.Some?)
    decreases |ids| - j
  {
    if j == |ids| {
      assert ids[..j] == ids;
    } else {
      var now, c := Placed(columns, ids[..j]), ids[j];
      assert c in InProject(columns, project) && c !in ids[..j] && ids[j..][1..] == ids[j + 1..];
      PlacedNext(columns, ids, j);
      if Clashes(now, c, j) {
        var d :| d in now && d != c && now[d].project == now[c].project && now[d].position == j;
        assert d in InProject(columns, project);
      }
      AssignFrom(columns, project, ids, j + 1);
    }
  }

  lemma PlacedAfterShift(columns: Columns, project: Id, order: seq<Id>, ids: seq<Id>)
    requires forall x :: x in order <==> x in ids
    ensures InProject(Shifted(columns, order), project) == InProject(columns, project)
    ensures Placed(Shifted(columns, order), ids) == Placed(columns, ids)
  {
  }

  lemma NothingDone(columns: Columns)
    ensures Shifted(columns, []) == columns && Placed(columns, []) == columns
  {
  }

  /** A completed rewrite shifts every column that its list leaves out, and places the others. */
  lemma PartialRewrite(columns: Columns, project: Id, order: seq<Id>, ids: seq<Id>)
    requires Lists(order, InProject(columns, project)) && Within(ids, InProject(columns, project))
    requires DistinctPositions(columns, project)
    requires forall c :: c in InProject(columns, project) ==> columns[c].position >= 0
    ensures var r := Rewrite(columns, order, ids);
            && (r.Some? ==> r.value == Placed(Shifted(columns, order), ids))
            && (!ShiftPair(columns, project) && |ids| <= SHIFT ==> r.Some?)
  {
    assert order[..0] == [] && order[0..] == order && ids[..0] == [] && ids[0..] == ids;
    NothingDone(columns);
    ShiftFrom(columns, project, order, 0);
    var shifted := Shifted(columns, order);
    assert InProject(shifted, project) == InProject(columns, project);
    NothingDone(shifted);
    AssignFrom(shifted, project, ids, 0);
  }

  /** A completed rewrite of a whole project puts ids[i] at i and leaves other projects alone;
      without columns SHIFT apart, and with at most SHIFT of them, it completes in any row order. */
  lemma RewriteResult(columns: Columns, project: Id, order: seq<Id>, ids: seq<Id>)
    requires Lists(order, InProject(columns, project)) && Lists(ids, InProject(columns, project))
    requires DistinctPositions(columns, project)
    requires forall c :: c in InProject(columns, project) ==> columns[c].position >= 0
    ensures var r := Rewrite(columns, order, ids);
            && (r.Some? ==> r.value == Placed(columns, ids))
            && (!ShiftPair(columns, project) && |ids| <= SHIFT ==> r.Some?)
  {
    PartialRewrite(columns, project, order, ids);
    PlacedAfterShift(columns, project, order, ids);
  }

  lemma {:induction false} Listing(s: set<Id>) returns (q: seq<Id>)
    ensures Lists(q, s)
    decreases |s|
  {
    if s == {} {
      q := [];
    } else {
      var x :| x in s;
      var rest := Listing(s - {x});
      q := [x] + rest;
      ListsCons(x, rest, s);
    }
  }

  lemma ListsSize(q: seq<Id>, s: set<Id>)
    requires Lists(q, s)
    ensures |q| == |s|
  {
    var f := (i: int) => if 0 <= i < |q| then q[i] else 0;
    var image := set i | i in Range(|q|) :: f(i);
    forall y | y in s
      ensures y in image
    {
      var i :| 0 <= i < |q| && q[i] == y;
      assert i in Range(|q|) && f(i) == y;
    }
    assert image == s;
    ImageSize(Range(|q|), f, s);
  }

  lemma ListsCons(x: Id, rest: seq<Id>, s: set<Id>)
    requires x in s && Lists(rest, s - {x})
    ensures Lists([x] + rest, s)
  {
    var q := [x] + rest;
    forall i | 0 < i < |q|
      ensures q[i] == rest[i - 1] && q[i] in s && q[i] != x
    {
      assert q[i] in rest;
    }
  }

  lemma FirstRowClashes(columns: Columns, c: Id, rest: seq<Id>)
    requires c in columns && Clashes(columns, c, columns[c].position + SHIFT)
    ensures ShiftRows(columns, [c] + rest).None?
  {
  }

  /** q lists what has been selected from s so far, by position; the rest lies above it. */
  ghost predicate Selected(columns: Columns, s: set<Id>, q: seq<Id>, rest: set<Id>)
    requires forall c :: c in s ==> c in columns
  {
    && rest <= s && Lists(q, s - rest)
    && (forall i, j :: 0 <= i < j < |q| ==> columns[q[i]].position < columns[q[j]].position)
    && (forall i, y :: 0 <= i < |q| && y in rest ==> columns[q[i]].position < columns[y].position)
  }

  lemma SelectedNext(columns: Columns, project: Id, q: seq<Id>, rest: set<Id>, c: Id)
    requires DistinctPositions(columns, project) && Selected(columns, InProject(columns, project), q, rest)
    requires c in rest && forall d :: d in rest ==> columns[c].position <= columns[d].position
    ensures Selected(columns, InProject(columns, project), q + [c], rest - {c})
  {
    var s := InProject(columns, project);
    ListsSnoc(q, s - rest, c);
    assert s - (rest - {c}) == (s - rest) + {c};
    forall y | y in rest - {c}
      ensures columns[c].position < columns[y].position
    {
      assert c in s && y in s;
    }
  }

  lemma ListsSnoc(q: seq<Id>, s: set<Id>, x: Id)
    requires Lists(q, s) && x !in s
    ensures Lists(q + [x], s + {x})
  {
  }

  /** Columns SHIFT apart break the shift when the lower one is visited first. */
  lemma ShiftPairBreaks(columns: Columns, project: Id) returns (order: seq<Id>)
    requires ShiftPair(columns, project)
    ensures Lists(order, InProject(columns, project)) && ShiftRows(columns, order).None?
  {
    var c, d :| c in InProject(columns, project) && d in InProject(columns, project)
                && columns[d].position == columns[c].position + SHIFT;
    var rest := Listing(InProject(columns, project) - {c});
    order := [c] + rest;
    ListsCons(c, rest, InProject(columns, project));
    assert Clashes(columns, c, columns[c].position + SHIFT);
    FirstRowClashes(columns, c, rest);
  }

  /** On a contiguous board every position is taken. */
  lemma ColumnAt(columns: Columns, project: Id, k: int) returns (c: Id)
    requires Contiguous(columns, project) && 0 <= k < |InProject(columns, project)|
    ensures c in InProject(columns, project) && columns[c].position == k
  {
    var s := InProject(columns, project);
    var f := (c: Id) => if c in columns then columns[c].position else -1;
    var image := set c | c in s :: f(c);
    ImageSize(s, f, image);
    SubsetOfSameSize(image, Range(|s|));
    assert k in image;
    c :| c in s && f(c) == k;
  }

  // ---------------------------------------------------------------- when the rewrite can fail

  /** A reorder succeeds in every physical row order exactly when the board has at most SHIFT columns. */
  lemma ReorderAlwaysSucceedsIff(columns: Columns, project: Id, ids: seq<Id>)
    requires Contiguous(columns, project) && Lists(ids, InProject(columns, project))
    ensures (forall order :: Lists(order, InProject(columns, project)) ==> Rewrite(columns, order, ids).Some?)
            <==> |InProject(columns, project)| <= SHIFT
  {
    ListsSize(ids, InProject(columns, project));
    if |InProject(columns, project)| > SHIFT {
      var c := ColumnAt(columns, project, 0);
      var d := ColumnAt(columns, project, SHIFT);
      var order := ShiftPairBreaks(columns, project);
      assert Rewrite(columns, order, ids).None?;
    } else {
      forall order | Lists(order, InProject(columns, project))
        ensures Rewrite(columns, order, ids).Some?
      {
        RewriteResult(columns, project, order, ids);
      }
    }
  }

  /** The rewrite after a deletion succeeds in every physical row order exactly when at most SHIFT
      columns existed, or one more and the deleted one stood at one end of the only bad pair. */
  lemma DeleteAlwaysSucceedsIff(columns: Columns, project: Id, column: Id, ids: seq<Id>)
    requires Contiguous(columns, project) && column in InProject(columns, project)
    requires Lists(ids, InProject(columns - {column}, project))
    ensures (forall order :: Lists(order, InProject(columns - {column}, project)) ==>
               Rewrite(columns - {column}, order, ids).Some?)
            <==> var n, k := |InProject(columns, project)|, columns[column].position;
                 n <= SHIFT || (n == SHIFT + 1 && (k == 0 || k == SHIFT))
  {
    var rest, n, k := columns - {column}, |InProject(columns, project)|, columns[column].position;
    assert InProject(rest, project) == InProject(columns, project) - {column};
    ListsSize(ids, InProject(rest, project));
    if n <= SHIFT || (n == SHIFT + 1 && (k == 0 || k == SHIFT)) {
      forall order | Lists(order, InProject(rest, project))
        ensures Rewrite(rest, order, ids).Some?
      {
        RewriteResult(rest, project, order, ids);
      }
    } else {
      var low := if k == 0 || k == SHIFT then 1 else 0;
      var c := ColumnAt(columns, project, low);
      var d := ColumnAt(columns, project, low + SHIFT);
      assert ShiftPair(rest, project) by {
        assert c in InProject(rest, project) && d in InProject(rest, project);
      }
      var order := ShiftPairBreaks(rest, project);
      assert Rewrite(rest, order, ids).None?;
    }
  }

  // ---------------------------------------------------------------- the requests

  /** q lists the project's columns by position. */
  ghost predicate Ordered(columns: Columns, project: Id, q: seq<Id>) {
    && Lists(q, InProject(columns, project))
    && forall i, j :: 0 <= i < j < |q| ==> columns[q[i]].position < columns[q[j]].position
  }

  function Without(q: seq<Id>, x: Id): seq<Id> {
    if q == [] then [] else (if q[0] == x then [] else [q[0]]) + Without(q[1..], x)
  }

  /** The next free position: one past the largest, 0 on an empty board. */
  ghost predicate NextPosition(columns: Columns, project: Id, k: int) {
    && (forall c :: c in InProject(columns, project) ==> columns[c].position < k)
    && (if InProject(columns, project) == {} then k == 0
        else exists c :: c in InProject(columns, project) && columns[c].position == k - 1)
  }

  function NewColumns(project: Id, ids: seq<Id>, names: seq<string>): Columns
    requires |ids| == |names|
  {
    map c | c in ids :: Column(project, names[IndexOf(ids, c)], IndexOf(ids, c))
  }

  lemma MergePut(base: Columns, added: Columns, c: Id, column: Column)
    ensures base + added[c := column] == (base + added)[c := column]
  {
  }

  lemma NewColumnsNext(project: Id, ids: seq<Id>, names: seq<string>, i: nat)
    requires |ids| == |names| && NoRepeats(ids) && i < |ids|
    ensures NewColumns(project, ids[..i + 1], names[..i + 1])
            == NewColumns(project, ids[..i], names[..i])[ids[i] := Column(project, names[i], i)]
  {
    var before, after := ids[..i], ids[..i + 1];
    assert after == before + [ids[i]];
    forall c | c in before
      ensures IndexOf(before, c) == IndexOf(after, c)
    {
      IndexOfAt(after, IndexOf(before, c));
    }
    IndexOfAt(after, i);
  }

  function Moved(tasks: map<Id, TaskRow>, from: Id, to: Id): map<Id, TaskRow> {
    map t | t in tasks :: if tasks[t].column == from then TaskRow(to, tasks[t].version + 1) else tasks[t]
  }

  /** One of the rewrites that some physical row order can produce, or the rollback. */
  ghost predicate RewriteStep(s: State, base: State, project: Id, ids: seq<Id>, s': State, reply: Reply) {
    exists order ::
      && Lists(order, InProject(base.columns, project))
      && match Rewrite(base.columns, order, ids)
         case None => s' == s && reply == IntegrityError
         case Some(columns) => s' == base.(columns := columns) && reply == Done
  }

  ghost predicate Step(s: State, c: Command, s': State, reply: Reply) {
    match c
    case NewProject(project, ids, names) =>
      if |ids| != |names| || !NoRepeats(ids) || InProject(s.columns, project) != {}
          || (exists x :: x in ids && x in s.columns)
      then s' == s && reply == Conflict
      else s' == s.(columns := s.columns + NewColumns(project, ids, names)) && reply == Done
    case CreateColumn(project, column, name) =>
      if project in s.archived then s' == s && reply == Conflict
      else if name == "" then s' == s && reply == Invalid
      else if column in s.columns || (exists d :: d in InProject(s.columns, project) && s.columns[d].name == name)
      then s' == s && reply == Conflict
      else
        && reply == Done
        && exists k :: NextPosition(s.columns, project, k)
            && s' == s.(columns := s.columns[column := Column(project, name, k)])
    case ReorderColumns(project, ids) =>
      if project in s.archived then s' == s && reply == Conflict
      else if !Lists(ids, InProject(s.columns, project)) then s' == s && reply == Invalid
      else RewriteStep(s, s, project, ids, s', reply)
    case DeleteColumn(project, column, moveTo) =>
      var inUse := exists t :: t in s.tasks && s.tasks[t].column == column;
      if project in s.archived || |InProject(s.columns, project)| <= 1 then s' == s && reply == Conflict
      else if column !in InProject(s.columns, project) then s' == s && reply == NotFound
      else if inUse && moveTo == None then s' == s && reply == Conflict
      else if inUse && (moveTo.value == column || moveTo.value !in InProject(s.columns, project))
      then s' == s && reply == Invalid
      else
        var tasks := if inUse then Moved(s.tasks, column, moveTo.value) else s.tasks;
        exists q :: Ordered(s.columns, project, q)
          && RewriteStep(s, State(s.columns - {column}, tasks, s.archived), project, Without(q, column), s', reply)
    case PutTask(t, column) =>
      if column !in s.columns
         || (t in s.tasks && s.tasks[t].column in s.columns
             && s.columns[s.tasks[t].column].project != s.columns[column].project)
      then s' == s && reply == Invalid
      else
        && reply == Done
        && s' == s.(tasks := s.tasks[t := TaskRow(column, if t in s.tasks then s.tasks[t].version + 1 else 1)])
  }

  // ---------------------------------------------------------------- what the requests achieve

  lemma {:induction false} OrderedFrom(columns: Columns, q: seq<Id>, i: nat, j: nat)
    requires forall c :: c in q ==> c in columns
    requires forall i, j :: 0 <= i < j < |q| ==> columns[q[i]].position < columns[q[j]].position
    requires i <= j < |q|
    ensures columns[q[j]].position - columns[q[i]].position >= j - i
    decreases j - i
  {
    if i < j {
      OrderedFrom(columns, q, i, j - 1);
    }
  }

  /** On a contiguous board the column listed at index i has position i. */
  lemma OrderedAt(columns: Columns, project: Id, q: seq<Id>, i: nat)
    requires Contiguous(columns, project) && Ordered(columns, project, q) && i < |q|
    ensures columns[q[i]].position == i
  {
    ListsSize(q, InProject(columns, project));
    OrderedFrom(columns, q, 0, i);
    OrderedFrom(columns, q, i, |q| - 1);
    assert q[0] in InProject(columns, project) && q[|q| - 1] in InProject(columns, project);
  }

  lemma {:induction false} WithoutMembers(q: seq<Id>, x: Id)
    requires NoRepeats(q)
    ensures NoRepeats(Without(q, x)) && forall y :: y in Without(q, x) <==> y in q && y != x
  {
    if q != [] {
      WithoutMembers(q[1..], x);
      assert q[0] !in q[1..];
      assert q[0] !in Without(q[1..], x);
    }
  }

  /** Leaving one element out moves the later ones down by one. */
  lemma {:induction false} WithoutIndex(q: seq<Id>, x: Id, y: Id)
    requires NoRepeats(q) && x in q && y in q && y != x
    ensures y in Without(q, x)
    ensures IndexOf(Without(q, x), y) == if IndexOf(q, y) < IndexOf(q, x) then IndexOf(q, y) else IndexOf(q, y) - 1
  {
    WithoutMembers(q, x);
    if q[0] == x {
      WithoutAbsent(q[1..], x);
    } else if q[0] != y {
      WithoutIndex(q[1..], x, y);
    }
  }

  lemma {:induction false} WithoutAbsent(q: seq<Id>, x: Id)
    requires x !in q
    ensures Without(q, x) == q
  {
    if q != [] {
      WithoutAbsent(q[1..], x);
    }
  }

  /** A reorder that completes puts column ids[i] at position i and touches nothing else. */
  lemma ReorderPlaces(s: State, project: Id, ids: seq<Id>, s': State, reply: Reply)
    requires Valid(s) && Step(s, Command.ReorderColumns(project, ids), s', reply) && reply == Done
    ensures s'.columns.Keys == s.columns.Keys && s'.tasks == s.tasks
    ensures Lists(ids, InProject(s.columns, project))
    ensures forall i :: 0 <= i < |ids| ==> s'.columns[ids[i]] == s.columns[ids[i]].(position := i)
    ensures forall c :: c in s.columns && c !in ids ==> s'.columns[c] == s.columns[c]
  {
    var order :| Lists(order, InProject(s.columns, project)) && Rewrite(s.columns, order, ids).Some?
                 && s' == s.(columns := Rewrite(s.columns, order, ids).value);
    assert Contiguous(s.columns, project);
    RewriteResult(s.columns, project, order, ids);
    forall i | 0 <= i < |ids|
      ensures s'.columns[ids[i]] == s.columns[ids[i]].(position := i)
    {
      IndexOfAt(ids, i);
    }
  }

  /** The board with one column taken out and the later ones moved down. */
  function Closed(columns: Columns, column: Id): Columns
    requires column in columns
  {
    map c | c in columns && c != column ::
      if columns[c].project == columns[column].project && columns[c].position > columns[column].position
      then columns[c].(position := columns[c].position - 1) else columns[c]
  }

  lemma GapIndex(columns: Columns, project: Id, column: Id, q: seq<Id>, c: Id)
    requires Contiguous(columns, project) && Ordered(columns, project, q)
    requires column in InProject(columns, project) && c in InProject(columns, project) && c != column
    ensures c in Without(q, column) && IndexOf(Without(q, column), c) == Closed(columns, column)[c].position
  {
    OrderedAt(columns, project, q, IndexOf(q, column));
    OrderedAt(columns, project, q, IndexOf(q, c));
    WithoutIndex(q, column, c);
  }

  lemma GapPlacedAt(columns: Columns, project: Id, column: Id, q: seq<Id>, c: Id)
    requires Contiguous(columns, project) && Ordered(columns, project, q) && column in InProject(columns, project)
    requires c in columns && c != column && (c in Without(q, column) <==> c in q)
    ensures Placed(columns - {column}, Without(q, column))[c] == Closed(columns, column)[c]
  {
    if c in InProject(columns, project) {
      GapIndex(columns, project, column, q, c);
    }
  }

  lemma GapPlaced(columns: Columns, project: Id, column: Id, q: seq<Id>)
    requires Contiguous(columns, project) && Ordered(columns, project, q) && column in InProject(columns, project)
    ensures Placed(columns - {column}, Without(q, column)) == Closed(columns, column)
  {
    WithoutMembers(q, column);
    var placed, closed := Placed(columns - {column}, Without(q, column)), Closed(columns, column);
    forall c | c in closed
      ensures placed[c] == closed[c]
    {
      GapPlacedAt(columns, project, column, q, c);
    }
    assert placed.Keys == closed.Keys;
  }

  lemma GapCloses(columns: Columns, project: Id, column: Id, q: seq<Id>, order: seq<Id>)
    requires Contiguous(columns, project) && Ordered(columns, project, q) && column in InProject(columns, project)
    requires Lists(order, InProject(columns - {column}, project))
    ensures var r := Rewrite(columns - {column}, order, Without(q, column));
            r.Some? ==> r.value == Closed(columns, column)
  {
    assert InProject(columns - {column}, project) == InProject(columns, project) - {column};
    WithoutMembers(q, column);
    RewriteResult(columns - {column}, project, order, Without(q, column));
    GapPlaced(columns, project, column, q);
  }

  /** A deletion that completes removes one column, closes the gap without changing the order of
      the others, and moves exactly the tasks of the removed column, each with a new version. */
  lemma DeleteKeepsOrder(s: State, project: Id, column: Id, moveTo: Option<Id>, s': State, reply: Reply)
    requires Valid(s) && Step(s, Command.DeleteColumn(project, column, moveTo), s', reply) && reply == Done
    ensures column in InProject(s.columns, project) && s'.columns == Closed(s.columns, column)
    ensures s'.tasks.Keys == s.tasks.Keys
    ensures forall t :: t in s.tasks ==>
      if s.tasks[t].column == column
      then moveTo.Some? && moveTo.value in s'.columns && s'.tasks[t] == TaskRow(moveTo.value, s.tasks[t].version + 1)
      else s'.tasks[t] == s.tasks[t]
  {
    var rest := s.columns - {column};
    var q, order :| Ordered(s.columns, project, q) && Lists(order, InProject(rest, project))
                    && Rewrite(rest, order, Without(q, column)).Some?
                    && s'.columns == Rewrite(rest, order, Without(q, column)).value;
    assert Contiguous(s.columns, project);
    GapCloses(s.columns, project, column, q, order);
  }

  /** Column by column: the deleted one is gone, those of its project behind it move up by one, and
      everything else about every column stays. */
  lemma DeleteShifts(s: State, project: Id, column: Id, moveTo: Option<Id>, s': State, reply: Reply)
    requires Valid(s) && Step(s, Command.DeleteColumn(project, column, moveTo), s', reply) && reply == Done
    ensures column in s.columns
    ensures s'.columns.Keys == s.columns.Keys - {column}
    ensures forall c :: c in s'.columns ==>
      && s'.columns[c].project == s.columns[c].project && s'.columns[c].name == s.columns[c].name
      && s'.columns[c].position == s.columns[c].position
           - (if s.columns[c].project == project && s.columns[c].position > s.columns[column].position then 1 else 0)
  {
    DeleteKeepsOrder(s, project, column, moveTo, s', reply);
  }

  // ---------------------------------------------------------------- every run

  lemma SameBoard(before: Columns, after: Columns, project: Id)
    requires Contiguous(before, project) && InProject(after, project) == InProject(before, project)
    requires forall c :: c in InProject(before, project) ==> after[c].position == before[c].position
    ensures Contiguous(after, project)
  {
  }

  lemma PlacedContiguous(columns: Columns, project: Id, ids: seq<Id>, p: Id)
    requires Contiguous(columns, p) && Lists(ids, InProject(columns, project))
    ensures Contiguous(Placed(columns, ids), p)
  {
    var after := Placed(columns, ids);
    assert InProject(after, p) == InProject(columns, p);
    if p == project {
      ListsSize(ids, InProject(columns, p));
    } else {
      SameBoard(columns, after, p);
    }
  }

  lemma ClosedContiguous(columns: Columns, column: Id, p: Id)
    requires Contiguous(columns, p) && column in columns
    ensures Contiguous(Closed(columns, column), p)
  {
    var after := Closed(columns, column);
    if p == columns[column].project {
      assert InProject(after, p) == InProject(columns, p) - {column};
    } else {
      assert InProject(after, p) == InProject(columns, p);
      SameBoard(columns, after, p);
    }
  }

  lemma AddedContiguous(columns: Columns, project: Id, column: Id, name: string, k: int, p: Id)
    requires Contiguous(columns, p) && column !in columns && NextPosition(columns, project, k)
    ensures Contiguous(columns[column := Column(project, name, k)], p)
  {
    var after := columns[column := Column(project, name, k)];
    if p == project {
      assert InProject(after, p) == InProject(columns, p) + {column};
    } else {
      assert InProject(after, p) == InProject(columns, p);
      SameBoard(columns, after, p);
    }
  }

  lemma NewProjectContiguous(columns: Columns, project: Id, ids: seq<Id>, names: seq<string>, p: Id)
    requires Contiguous(columns, p) && |ids| == |names| && NoRepeats(ids)
    requires InProject(columns, project) == {} && forall x :: x in ids ==> x !in columns
    ensures Contiguous(columns + NewColumns(project, ids, names), p)
  {
    var after := columns + NewColumns(project, ids, names);
    if p == project {
      forall c
        ensures c in InProject(after, p) <==> c in ids
      {
        assert c in columns ==> c !in InProject(columns, project);
      }
      ListsSize(ids, InProject(after, p));
    } else {
      assert InProject(after, p) == InProject(columns, p);
      SameBoard(columns, after, p);
    }
  }

  /** Whatever a request does, rollbacks included, every board stays contiguous and every task
      keeps a column that exists. */
  lemma StepKeepsValid(s: State, c: Command, s': State, reply: Reply)
    requires Valid(s) && Step(s, c, s', reply)
    ensures Valid(s')
  {
    if s' != s {
      match c
      case PutTask(t, column) =>
      case CreateColumn(project, column, name) =>
        var k :| NextPosition(s.columns, project, k)
            && s' == s.(columns := s.columns[column := Column(project, name, k)]);
        forall p ensures Contiguous(s'.columns, p) { AddedContiguous(s.columns, project, column, name, k, p); }
      case NewProject(project, ids, names) =>
        forall p ensures Contiguous(s'.columns, p) { NewProjectContiguous(s.columns, project, ids, names, p); }
      case ReorderColumns(project, ids) =>
        assert Contiguous(s.columns, project);
        var order :| Lists(order, InProject(s.columns, project)) && Rewrite(s.columns, order, ids) == Some(s'.columns);
        RewriteResult(s.columns, project, order, ids);
        forall p ensures Contiguous(s'.columns, p) { PlacedContiguous(s.columns, project, ids, p); }
      case DeleteColumn(project, column, moveTo) =>
        DeleteKeepsOrder(s, project, column, moveTo, s', reply);
        forall p ensures Contiguous(s'.columns, p) { ClosedContiguous(s.columns, column, p); }
    }
  }

  lemma DeleteNeverClashes(columns: Columns, project: Id, column: Id)
    requires Contiguous(columns, project) && column in InProject(columns, project)
    requires |InProject(columns, project)| <= SHIFT
    ensures forall q, order :: Ordered(columns, project, q) && Lists(order, InProject(columns - {column}, project)) ==>
      Rewrite(columns - {column}, order, Without(q, column)).Some?
  {
    var rest := columns - {column};
    assert InProject(rest, project) == InProject(columns, project) - {column};
    forall q, order | Ordered(columns, project, q) && Lists(order, InProject(rest, project))
      ensures Rewrite(rest, order, Without(q, column)).Some?
    {
      WithoutMembers(q, column);
      DeleteAlwaysSucceedsIff(columns, project, column, Without(q, column));
    }
  }

  /** No row write of any request on a board of at most SHIFT columns ever breaks UNIQUE. */
  lemma StepNeverClashes(s: State, c: Command, s': State, reply: Reply)
    requires Valid(s) && Step(s, c, s', reply)
    requires c.ReorderColumns? || c.DeleteColumn? ==> |InProject(s.columns, c.project)| <= SHIFT
    ensures reply != IntegrityError
  {
    match c
    case ReorderColumns(project, ids) =>
      assert Contiguous(s.columns, project);
      if reply == IntegrityError {
        ReorderAlwaysSucceedsIff(s.columns, project, ids);
      }
    case DeleteColumn(project, column, moveTo) =>
      assert Contiguous(s.columns, project);
      if reply == IntegrityError {
        DeleteNeverClashes(s.columns, project, column);
      }
    case _ =>
  }

  // ---------------------------------------------------------------- what is accepted

  /** On a board of at most SHIFT columns a reorder of a live project is carried out exactly when its
      list has all the columns, each once. */
  lemma ReorderAcceptedIff(s: State, project: Id, ids: seq<Id>, s': State, reply: Reply)
    requires Valid(s) && Step(s, Command.ReorderColumns(project, ids), s', reply)
    requires |InProject(s.columns, project)| <= SHIFT
    ensures reply == Done
      <==> && project !in s.archived
           && (forall i, j :: 0 <= i < j < |ids| ==> ids[i] != ids[j])
           && (forall c :: c in ids <==> c in s.columns && s.columns[c].project == project)
    ensures reply != Done ==> s' == s
  {
    StepNeverClashes(s, Command.ReorderColumns(project, ids), s', reply);
    if forall c :: c in ids <==> c in s.columns && s.columns[c].project == project {
      forall i | 0 <= i < |ids|
        ensures ids[i] in InProject(s.columns, project)
      {
        assert ids[i] in ids;
      }
    }
  }

  /** On such a board a column of a live project is deleted exactly when it is not the last one and
      is empty or another column of the project is named for its tasks. */
  lemma DeleteAcceptedIff(s: State, project: Id, column: Id, moveTo: Option<Id>, s': State, reply: Reply)
    requires Valid(s) && Step(s, Command.DeleteColumn(project, column, moveTo), s', reply)
    requires |InProject(s.columns, project)| <= SHIFT
    ensures reply == Done
      <==> && project !in s.archived && column in s.columns && s.columns[column].project == project
           && (exists d :: d in s.columns && d != column && s.columns[d].project == project)
           && ((forall t :: t in s.tasks ==> s.tasks[t].column != column)
               || (moveTo.Some? && moveTo.value in s.columns && moveTo.value != column
                   && s.columns[moveTo.value].project == project))
    ensures reply != Done ==> s' == s
  {
    StepNeverClashes(s, Command.DeleteColumn(project, column, moveTo), s', reply);
    if column in InProject(s.columns, project) {
      MoreThanOneIff(s.columns, project, column);
    }
  }

  lemma MoreThanOneIff(columns: Columns, project: Id, column: Id)
    requires column in InProject(columns, project)
    ensures |InProject(columns, project)| > 1
      <==> exists d :: d in columns && d != column && columns[d].project == project
  {
    var s := InProject(columns, project);
    if d :| d in columns && d != column && columns[d].project == project {
      SubsetSize({column, d}, s);
    }
    if |s| > 1 {
      assert |s - {column}| == |s| - 1;
      var d :| d in s - {column};
      assert d in columns && d != column && columns[d].project == project;
    }
  }

  /** A column is created exactly when the project is live, the name is not blank and new to it, and
      the id is new; it stands behind all the others, which stay as they are. */
  lemma CreateAcceptedIff(s: State, project: Id, column: Id, name: string, s': State, reply: Reply)
    requires Valid(s) && Step(s, Command.CreateColumn(project, column, name), s', reply)
    ensures reply == Done
      <==> && project !in s.archived && name != "" && column !in s.columns
           && forall d :: d in s.columns && s.columns[d].project == project ==> s.columns[d].name != name
    ensures reply == Done ==>
      s' == s.(columns := s.columns[column := Column(project, name, |InProject(s.columns, project)|)])
    ensures reply != Done ==> s' == s
  {
    assert Contiguous(s.columns, project);
    if reply == Done {
      var k :| NextPosition(s.columns, project, k)
               && s' == s.(columns := s.columns[column := Column(project, name, k)]);
      NextIsCount(s.columns, project, k);
    }
  }

  lemma NextIsCount(columns: Columns, project: Id, k: int)
    requires Contiguous(columns, project) && NextPosition(columns, project, k)
    ensures k == |InProject(columns, project)|
  {
    if InProject(columns, project) != {} {
      var last := ColumnAt(columns, project, |InProject(columns, project)| - 1);
      assert columns[last].position < k;
    }
  }

  /** A new project's columns are made exactly when there are as many names as ids, the ids are new
      and distinct and the project has none; column i gets name i and position i. */
  lemma NewProjectAcceptedIff(s: State, project: Id, ids: seq<Id>, names: seq<string>, s': State, reply: Reply)
    requires Step(s, Command.NewProject(project, ids, names), s', reply)
    ensures reply == Done
      <==> && |ids| == |names| && (forall i, j :: 0 <= i < j < |ids| ==> ids[i] != ids[j])
           && (forall c :: c in ids ==> c !in s.columns)
           && (forall c :: c in s.columns ==> s.columns[c].project != project)
    ensures reply == Done ==>
      && s'.tasks == s.tasks && s'.columns.Keys == s.columns.Keys + (set c | c in ids)
      && (forall c :: c in s.columns ==> s'.columns[c] == s.columns[c])
      && (forall i :: 0 <= i < |ids| ==> ids[i] in s'.columns && s'.columns[ids[i]] == Column(project, names[i], i))
    ensures reply != Done ==> s' == s
  {
    if c :| c in s.columns && s.columns[c].project == project {
      assert c in InProject(s.columns, project);
    }
    if reply == Done {
      forall i | 0 <= i < |ids|
        ensures ids[i] in s'.columns && s'.columns[ids[i]] == Column(project, names[i], i)
      {
        assert ids[i] in ids;
        IndexOfAt(ids, i);
      }
    }
  }

  /** A task is put into a column exactly when the column exists and is one of the project the task
      is in; only that task changes, with a new version. */
  lemma PutAcceptedIff(s: State, t: Id, column: Id, s': State, reply: Reply)
    requires Valid(s) && Step(s, Command.PutTask(t, column), s', reply)
    ensures reply == Done
      <==> && column in s.columns
           && (t in s.tasks ==> s.columns[s.tasks[t].column].project == s.columns[column].project)
    ensures reply == Done ==>
      && s'.columns == s.columns && t in s'.tasks && s'.tasks[t].column == column
      && s'.tasks[t].version == (if t in s.tasks then s.tasks[t].version + 1 else 1)
      && forall u :: u != t ==> (u in s'.tasks <==> u in s.tasks) && (u in s.tasks ==> s'.tasks[u] == s.tasks[u])
    ensures reply != Done ==> s' == s
  {
  }

  ghost predicate IsRun(states: seq<State>, cs: seq<Command>, replies: seq<Reply>) {
    && |states| == |cs| + 1 && |replies| == |cs|
    && forall i :: 0 <= i < |cs| ==> Step(states[i], cs[i], states[i + 1], replies[i])
  }

  /** In every run, from any valid state and with boards of any size, positions stay 0 .. n - 1. */
  lemma {:induction false} RunKeepsValid(states: seq<State>, cs: seq<Command>, replies: seq<Reply>, n: nat)
    requires IsRun(states, cs, replies) && Valid(states[0]) && n <= |cs|
    ensures Valid(states[n])
  {
    if n > 0 {
      RunKeepsValid(states, cs, replies, n - 1);
      StepKeepsValid(states[n - 1], cs[n - 1], states[n], replies[n - 1]);
    }
  }

  // ---------------------------------------------------------------- the handlers

  class Board {
    var columns: Columns
    var tasks: map<Id, TaskRow>
    var archived: set<Id>

    ghost function Value(): State
      reads this
    {
      State(columns, tasks, archived)
    }

    constructor ()
      ensures Value() == State(map[], map[], {})
    {
      columns, tasks, archived := map[], map[], {};
    }

    /** `ORDER BY position`. */
    method SelectOrdered(project: Id) returns (q: seq<Id>)
      requires DistinctPositions(columns, project)
      ensures Ordered(columns, project, q)
    {
      q := [];
      var rest := InProject(columns, project);
      while rest != {}
        invariant Selected(columns, InProject(columns, project), q, rest)
      {
        Lowest(columns, rest);
        var c :| c in rest && forall d :: d in rest ==> columns[c].position <= columns[d].position;
        SelectedNext(columns, project, q, rest, c);
        q := q + [c];
        rest := rest - {c};
      }
    }

    /** The shift and the assignments, one row at a time; nothing is kept if a row clashes. */
    method RewritePositions(project: Id, ids: seq<Id>) returns (ok: bool)
      requires forall x :: x in ids ==> x in columns
      modifies this
      ensures tasks == old(tasks) && archived == old(archived)
      ensures exists order ::
        && Lists(order, InProject(old(columns), project))
        && match Rewrite(old(columns), order, ids)
           case None => !ok
           case Some(r) => ok && columns == r
    {
      ghost var before := columns;
      var order := Enumerate(InProject(columns, project));
      assert Lists(order, InProject(before, project));
      ok := true;
      assert order[0..] == order;
      for j := 0 to |order|
        invariant tasks == old(tasks) && archived == old(archived)
        invariant columns.Keys == before.Keys
        invariant ShiftRows(columns, order[j..]) == ShiftRows(before, order)
      {
        var c := order[j];
        assert c in order && order[j..][0] == c && order[j..][1..] == order[j + 1..];
        if Clashes(columns, c, columns[c].position + SHIFT) {
          assert Rewrite(before, order, ids) == None;
          return false;
        }
        columns := Write(columns, c, columns[c].position + SHIFT);
      }
      ghost var shifted := columns;
      assert order[|order|..] == [] && ids[0..] == ids;
      for j := 0 to |ids|
        invariant tasks == old(tasks) && archived == old(archived)
        invariant columns.Keys == before.Keys
        invariant AssignRows(columns, ids[j..], j) == AssignRows(shifted, ids, 0)
      {
        assert ids[j] in ids && ids[j..][0] == ids[j] && ids[j..][1..] == ids[j + 1..];
        if Clashes(columns, ids[j], j) {
          assert Rewrite(before, order, ids) == None;
          return false;
        }
        columns := Write(columns, ids[j], j);
      }
      assert ids[|ids|..] == [];
      assert Rewrite(before, order, ids) == Some(columns);
    }

    method AddProject(project: Id, ids: seq<Id>, names: seq<string>) returns (reply: Reply)
      modifies this
      ensures Step(old(Value()), Command.NewProject(project, ids, names), Value(), reply)
    {
      if |ids| != |names| || (exists i, j :: 0 <= i < j < |ids| && ids[i] == ids[j])
         || InProject(columns, project) != {} || (exists x :: x in ids && x in columns) {
        return Conflict;
      }
      AddColumns(project, ids, names);
      return Done;
    }

    /** A new project gets its columns in order. */
    method AddColumns(project: Id, ids: seq<Id>, names: seq<string>)
      requires |ids| == |names| && NoRepeats(ids)
      modifies this`columns
      ensures columns == old(columns) + NewColumns(project, ids, names)
    {
      assert columns == old(columns) + NewColumns(project, ids[..0], names[..0]);
      for i := 0 to |ids|
        invariant columns == old(columns) + NewColumns(project, ids[..i], names[..i])
      {
        NewColumnsNext(project, ids, names, i);
        MergePut(old(columns), NewColumns(project, ids[..i], names[..i]), ids[i], Column(project, names[i], i));
        columns := columns[ids[i] := Column(project, names[i], i)];
      }
      assert ids[..|ids|] == ids && names[..|ids|] == names;
    }

    method Create(project: Id, column: Id, name: string) returns (reply: Reply)
      modifies this
      ensures Step(old(Value()), Command.CreateColumn(project, column, name), Value(), reply)
    {
      if project in archived {
        return Conflict;
      }
      if name == "" {
        return Invalid;
      }
      if column in columns || exists d :: d in InProject(columns, project) && columns[d].name == name {
        return Conflict;
      }
      var max: Option<int> := None;
      var rest := InProject(columns, project);
      while rest != {}
        invariant rest <= InProject(columns, project)
        invariant max == None <==> rest == InProject(columns, project)
        invariant max.Some? ==> forall c :: c in InProject(columns, project) - rest ==> columns[c].position <= max.value
        invariant max.Some? ==> exists c :: c in InProject(columns, project) && columns[c].position == max.value
      {
        var c :| c in rest;
        if max == None || columns[c].position > max.value {
          max := Some(columns[c].position);
        }
        rest := rest - {c};
      }
      var position := (if max.Some? then max.value else -1) + 1;
      assert NextPosition(columns, project, position);
      columns := columns[column := Column(project, name, position)];
      return Done;
    }

    method Put(t: Id, column: Id) returns (reply: Reply)
      modifies this
      ensures Step(old(Value()), Command.PutTask(t, column), Value(), reply)
    {
      if column !in columns
         || (t in tasks && tasks[t].column in columns && columns[tasks[t].column].project != columns[column].project) {
        return Invalid;
      }
      tasks := tasks[t := TaskRow(column, if t in tasks then tasks[t].version + 1 else 1)];
      return Done;
    }

    method Reorder(project: Id, ids: seq<Id>) returns (reply: Reply)
      modifies this
      ensures Step(old(Value()), Command.ReorderColumns(project, ids), Value(), reply)
    {
      if project in archived {
        return Conflict;
      }
      if (exists i, j :: 0 <= i < j < |ids| && ids[i] == ids[j]) || (set x | x in ids) != InProject(columns, project) {
        return Invalid;
      }
      assert forall x :: x in ids <==> x in set x | x in ids;
      assert Lists(ids, InProject(columns, project));
      var before := columns;
      var ok := RewritePositions(project, ids);
      if !ok {
        columns := before;
        return IntegrityError;
      }
      return Done;
    }

    method Delete(project: Id, column: Id, moveTo: Option<Id>) returns (reply: Reply)
      requires DistinctPositions(columns, project)
      modifies this
      ensures Step(old(Value()), Command.DeleteColumn(project, column, moveTo), Value(), reply)
    {
      if project in archived || |InProject(columns, project)| <= 1 {
        return Conflict;
      }
      if column !in InProject(columns, project) {
        return NotFound;
      }
      var q := SelectOrdered(project);
      var beforeColumns, beforeTasks := columns, tasks;
      if exists t :: t in tasks && tasks[t].column == column {
        if moveTo == None {
          return Conflict;
        }
        if moveTo.value == column || moveTo.value !in InProject(columns, project) {
          return Invalid;
        }
        tasks := Moved(tasks, column, moveTo.value);
      }
      columns := columns - {column};
      WithoutMembers(q, column);
      ghost var base := Value();
      var ok := RewritePositions(project, Without(q, column));
      if !ok {
        columns, tasks := beforeColumns, beforeTasks;
        reply := IntegrityError;
      } else {
        reply := Done;
      }
      assert RewriteStep(old(Value()), base, project, Without(q, column), Value(), reply);
    }
  }

  lemma {:induction false} Lowest(columns: Columns, s: set<Id>)
    requires s != {} && forall c :: c in s ==> c in columns
    ensures exists c :: c in s && forall d :: d in s ==> columns[c].position <= columns[d].position
    decreases s
  {
    var x :| x in s;
    if s != {x} {
      Lowest(columns, s - {x});
      var c :| c in s - {x} && forall d :: d in s - {x} ==> columns[c].position <= columns[d].position;
      var low := if columns[x].position < columns[c].position then x else c;
      assert low in s && forall d :: d in s ==> columns[low].position <= columns[d].position;
    }
  }
}
