/** The client's copy of the table against the server's. */
module Mirror {
  import opened Wrappers
  import opened Protocol
  import opened ClientModel
  import opened TableHistory

  // ---- id columns ----

  /** The ids of a column that belong to keep, in their order. */
  function Restrict(ids: seq<int>, keep: set<int>): seq<int> {
    if ids == [] then []
    else (if ids[0] in keep then [ids[0]] else []) + Restrict(ids[1..], keep)
  }

  lemma {:induction false} RestrictAppend(ids: seq<int>, more: seq<int>, keep: set<int>)
    ensures Restrict(ids + more, keep) == Restrict(ids, keep) + Restrict(more, keep)
  {
    if ids == [] {
      assert ids + more == more;
    } else {
      RestrictAppend(ids[1..], more, keep);
      assert (ids + more)[1..] == ids[1..] + more && (ids + more)[0] == ids[0];
      Regroup(if ids[0] in keep then [ids[0]] else [], Restrict(ids[1..], keep), Restrict(more, keep));
    }
  }

  lemma {:induction false} RestrictNothing(ids: seq<int>, keep: set<int>)
    requires forall k :: 0 <= k < |ids| ==> ids[k] in keep
    ensures Restrict(ids, keep) == ids
  {
    if ids != [] { RestrictNothing(ids[1..], keep); }
  }

  lemma {:induction false} RestrictWithout(ids: seq<int>, id: int, keep: set<int>)
    ensures Restrict(Without(ids, id), keep) == Without(Restrict(ids, keep), id)
  {
    if ids != [] {
      RestrictWithout(ids[1..], id, keep);
      var r, w := Restrict(ids[1..], keep), Without(ids[1..], id);
      if ids[0] != id {
        assert Without(ids, id)[1..] == w;
      } else {
        assert Without(ids, id) == w;
      }
      if ids[0] in keep {
        assert Restrict(ids, keep)[1..] == r;
      } else {
        assert Restrict(ids, keep) == r;
        assert [] + Restrict(w, keep) == Restrict(w, keep);
      }
    }
  }

  lemma {:induction false} RestrictMembers(ids: seq<int>, keep: set<int>, x: int)
    ensures x in Restrict(ids, keep) <==> x in ids && x in keep
  {
    if ids != [] { RestrictMembers(ids[1..], keep, x); }
  }

  lemma {:induction false} RestrictSorted(ids: seq<int>, keep: set<int>)
    requires Sorted(ids)
    ensures Sorted(Restrict(ids, keep))
  {
    if ids != [] {
      var rest := ids[1..];
      RestrictSorted(rest, keep);
      forall x | x in Restrict(rest, keep) ensures x in rest { RestrictMembers(rest, keep, x); }
      SortedFront(ids, Restrict(rest, keep));
    }
  }

  lemma {:induction false} RestrictInsert(view: seq<View>, v: View, keep: set<int>)
    requires v.id !in keep
    ensures Restrict(Ids(InsertById(view, v)), keep) == Restrict(Ids(view), keep)
  {
    if view == [] || v.id < view[0].id {
      assert Ids([v] + view)[1..] == Ids(view);
    } else {
      RestrictInsert(view[1..], v, keep);
      assert Ids(view)[1..] == Ids(view[1..]);
      assert Ids(InsertById(view, v))[1..] == Ids(InsertById(view[1..], v));
    }
  }

  /** Without an id that is not there, nothing changes; without one that is there,
      the column is shorter. */
  lemma {:induction false} WithoutLength(ids: seq<int>, id: int)
    ensures id !in ids ==> Without(ids, id) == ids
    ensures id in ids ==> |Without(ids, id)| < |ids|
  {
    if ids != [] { WithoutLength(ids[1..], id); }
  }

  function RemoveAt(ids: seq<int>, k: int): seq<int>
    requires 0 <= k < |ids|
  {
    ids[..k] + ids[k + 1..]
  }

  /** In a column of distinct ids, removing by position is removing by id exactly
      when the position holds the id. */
  lemma RemoveAtIsWithout(ids: seq<int>, k: int, id: int)
    requires Sorted(ids) && 0 <= k < |ids|
    ensures RemoveAt(ids, k) == Without(ids, id) <==> ids[k] == id
  {
    if ids[k] == id {
      WithoutAt(ids, k);
    } else {
      WithoutMembers(ids, id, ids[k]);
      assert ids[k] !in RemoveAt(ids, k);
    }
  }

  lemma {:induction false} WithoutAt(ids: seq<int>, k: int)
    requires Sorted(ids) && 0 <= k < |ids|
    ensures Without(ids, ids[k]) == RemoveAt(ids, k)
  {
    if k == 0 {
      WithoutLength(ids[1..], ids[0]);
    } else {
      WithoutAt(ids[1..], k - 1);
      assert ids[0] < ids[k];
      assert RemoveAt(ids, k) == [ids[0]] + RemoveAt(ids[1..], k - 1);
    }
  }

  // ---- the mirror ----

  function Snapshot(db: Database): set<int> {
    set k | 0 <= k < |db.view| :: db.view[k].id
  }

  /** What the client's id column should be: the ids the server's view table will
      have once everything sent is applied, less those added since the snapshot. */
  function Expected(db: Database, c: Client): seq<int> {
    Restrict(Ids(Final(db, c).db.view), Snapshot(db))
  }

  ghost predicate MirrorHolds(db: Database, c: Client) {
    Ids(c.rows) == Expected(db, c)
  }

  /** The checks that a handler would have to make before it acts. */
  predicate KeepsMirror(c: Client, e: Event) {
    match e
    case DeleteClick =>
      c.billboardID.Some? ==>
        if c.HasRow(c.selectedRow) then c.rows[c.selectedRow].id == c.billboardID.value
        else c.billboardID.value !in Ids(c.rows)
    case UpdateClick(_, _, _, _) =>
      c.editId.Some? && c.HasRow(c.rowToEdit) ==> c.rows[c.rowToEdit].id == c.editId.value
    case TypeCell(row, id) => c.HasRow(row) ==> c.rows[row].id == id
    case _ => true
  }

  /** The id that the next new row of `view` gets is not one of the snapshot, or it
      is taken, and the row is refused. */
  predicate NewRowUnseen(db: Database, c: Client) {
    var f := Final(db, c).db;
    NewViewId(f) !in Snapshot(db) || NewViewId(f) in Ids(f.view)
  }

  lemma FinalIsOrdered(db: Database, c: Client)
    requires Ordered(db)
    ensures Ordered(Final(db, c).db)
    ensures db.viewIds.AutoIncrement? ==> NewRowUnseen(db, c)
  {
    KeysStayInOrder(Start(db), c.sent);
    NumberingStays(db, c);
    if db.viewIds.AutoIncrement? {
      forall id | id in Snapshot(db) ensures id < db.viewIds.next {
        var k :| 0 <= k < |db.view| && db.view[k].id == id;
        assert Ids(db.view)[k] == id;
      }
    }
  }

  lemma SnapshotIs(db: Database, id: int)
    ensures id in Snapshot(db) <==> id in Ids(db.view)
  {
    if id in Ids(db.view) {
      var k :| 0 <= k < |db.view| && Ids(db.view)[k] == id;
      assert db.view[k].id == id;
    }
    if id in Snapshot(db) {
      var k :| 0 <= k < |db.view| && db.view[k].id == id;
      assert Ids(db.view)[k] == id;
    }
  }

  /** How the expected column moves with a request for a new billboard. */
  lemma ExpectedAfterAdd(d: Database, r: Request, keep: set<int>)
    requires r.AddBillboard? && Ordered(d)
    ensures var before, after := Restrict(Ids(d.view), keep), Restrict(Ids(Apply(d, r).view), keep);
      before == after <==> NewViewId(d) !in keep || NewViewId(d) in Ids(d.view)
  {
    var id, n, row := NewViewId(d), Apply(d, r), NewView(d, r.name, r.message, r.info, r.url);
    if d.viewIds.DefaultId? && id in Ids(d.view) {
    } else if id in keep {
      AddedRows(d, r, row);
      IdOfRow(n.view, id);
      RestrictMembers(Ids(n.view), keep, id);
      RestrictMembers(Ids(d.view), keep, id);
    } else if d.viewIds.DefaultId? {
      RestrictInsert(d.view, row, keep);
    } else {
      assert Ids(n.view) == Ids(d.view) + [id];
      RestrictAppend(Ids(d.view), [id], keep);
      assert Restrict([id], keep) == [];
    }
  }

  function ExpectedUnlessAdd(ids: seq<int>, c: Client, e: Event): seq<int> {
    if e.DeleteClick? && c.billboardID.Some? then Without(ids, c.billboardID.value) else ids
  }

  /** How the expected column moves with a complete request. */
  lemma ExpectedAfter(db: Database, c: Client, e: Event)
    requires Ordered(Final(db, c).db) && Final(db, c).phase == AwaitTag
    ensures e.SubmitClick? ==> (Expected(db, Step(c, e)) == Expected(db, c) <==> NewRowUnseen(db, c))
    ensures !e.SubmitClick? ==> Expected(db, Step(c, e)) == ExpectedUnlessAdd(Expected(db, c), c, e)
  {
    var f, keep := Final(db, c), Snapshot(db);
    FinalStep(db, c, e);
    if NullDelete(c, e) {
      assert Drain(f, [Tag("delete")]) == Drain(Consume(f, Tag("delete")), []);
    } else if RequestOf(c, e).Some? {
      var r := RequestOf(c, e).value;
      DrainFrame(f, r);
      match r {
        case AddBillboard(n, m, i, u) =>
          ExpectedAfterAdd(f.db, r, keep);
        case DeleteRow(id) =>
          DeletedIds(f.db.view, id);
          RestrictWithout(Ids(f.db.view), id, keep);
        case AddView(_, _, _, _) =>
          assert Ids(Apply(f.db, r).view) == Ids(f.db.view);
        case EditTable(_, _, _, _, _) =>
        case ShowTable =>
      }
    }
  }

  /** What one handler has to meet: the check, and for a Submit that its row will
      not be taken for one of the snapshot. */
  predicate StepPasses(db: Database, c: Client, e: Event) {
    KeepsMirror(c, e) && (e.SubmitClick? ==> NewRowUnseen(db, c))
  }

  /** How the client's own column moves. */
  lemma RowsAfter(c: Client, e: Event)
    ensures Ids(Step(c, e).rows) ==
            if e.DeleteClick? && c.billboardID.Some? && c.HasRow(c.selectedRow)
              then RemoveAt(Ids(c.rows), c.selectedRow)
            else if e.UpdateClick? && c.editId.Some? && c.HasRow(c.rowToEdit)
              then Ids(c.rows)[c.rowToEdit := c.editId.value]
            else if e.TypeCell? && c.HasRow(e.row) then Ids(c.rows)[e.row := e.id]
            else Ids(c.rows)
  {}

  /** One handler, from any state in which the mirror holds and the stream is well
      framed, and with either way of numbering: the mirror holds afterwards if and
      only if the check passes and a Submit adds no row with a snapshot id. With a
      counter no Submit can. */
  lemma StepKeepsMirrorIff(db: Database, c: Client, e: Event)
    requires Ordered(db) && MirrorHolds(db, c) && Final(db, c).phase == AwaitTag
    ensures MirrorHolds(db, Step(c, e)) <==> StepPasses(db, c, e)
    ensures db.viewIds.AutoIncrement? ==> NewRowUnseen(db, c)
  {
    FinalIsOrdered(db, c);
    ExpectedAfter(db, c, e);
    RowsAfter(c, e);
    var ids := Ids(c.rows);
    RestrictSorted(Ids(Final(db, c).db.view), Snapshot(db));
    if e.DeleteClick? && c.billboardID.Some? {
      if c.HasRow(c.selectedRow) {
        RemoveAtIsWithout(ids, c.selectedRow, c.billboardID.value);
      } else {
        WithoutLength(ids, c.billboardID.value);
      }
    } else if e.UpdateClick? && c.editId.Some? && c.HasRow(c.rowToEdit) {
      var after := ids[c.rowToEdit := c.editId.value];
      assert after == ids <==> after[c.rowToEdit] == ids[c.rowToEdit];
    } else if e.TypeCell? && c.HasRow(e.row) {
      var after := ids[e.row := e.id];
      assert after == ids <==> after[e.row] == ids[e.row];
    }
  }

  // ---- whole runs ----

  lemma ConnectedMirror(db: Database)
    ensures MirrorHolds(db, Connected(db)) && Final(db, Connected(db)).phase == AwaitTag
  {
    ConnectedFinal(db);
    RestrictNothing(Ids(db.view), Snapshot(db));
  }

  /** The check of every step. */
  ghost predicate AllKeepMirror(db: Database, es: seq<Event>) {
    forall k :: 0 <= k < |es| ==> StepPasses(db, Run(Connected(db), es[..k]), es[k])
  }

  ghost predicate MirrorThroughout(db: Database, es: seq<Event>) {
    forall k :: 0 <= k <= |es| ==> MirrorHolds(db, Run(Connected(db), es[..k]))
  }

  lemma RunPrefix(c: Client, es: seq<Event>, k: nat)
    requires k < |es|
    ensures Run(c, es[..k + 1]) == Step(Run(c, es[..k]), es[k])
  {
    assert es[..k + 1][..k] == es[..k];
  }

  lemma {:induction false} ServedPrefix(db: Database, es: seq<Event>, k: nat)
    requires k <= |es| && WellServed(db, es)
    ensures WellServed(db, es[..k])
  {
    if k == |es| {
      assert es[..k] == es;
    } else {
      ServedPrefix(db, es[..|es| - 1], k);
      assert es[..|es| - 1][..k] == es[..k];
    }
  }

  lemma MirrorStepAt(db: Database, es: seq<Event>, k: nat)
    requires Ordered(db) && WellServed(db, es) && k < |es| && MirrorHolds(db, Run(Connected(db), es[..k]))
    ensures MirrorHolds(db, Run(Connected(db), es[..k + 1])) <==> StepPasses(db, Run(Connected(db), es[..k]), es[k])
  {
    ServedPrefix(db, es, k);
    FramingOfRuns(db, es[..k]);
    RunPrefix(Connected(db), es, k);
    StepKeepsMirrorIff(db, Run(Connected(db), es[..k]), es[k]);
  }

  /** Every run that the server survives: the mirror holds at each of its moments
      if and only if the check passes at each of its steps. */
  lemma MirrorOfRunsIff(db: Database, es: seq<Event>)
    requires Ordered(db) && WellServed(db, es)
    ensures MirrorThroughout(db, es) <==> AllKeepMirror(db, es)
  {
    ConnectedMirror(db);
    assert es[..0] == [];
    if MirrorThroughout(db, es) {
      forall k | 0 <= k < |es| ensures StepPasses(db, Run(Connected(db), es[..k]), es[k]) {
        MirrorStepAt(db, es, k);
        assert MirrorHolds(db, Run(Connected(db), es[..k + 1]));
      }
    }
    if AllKeepMirror(db, es) {
      forall k | 0 <= k <= |es| ensures MirrorHolds(db, Run(Connected(db), es[..k])) {
        MirrorUpTo(db, es, k);
      }
    }
  }

  lemma {:induction false} MirrorUpTo(db: Database, es: seq<Event>, k: nat)
    requires Ordered(db) && WellServed(db, es) && AllKeepMirror(db, es) && k <= |es|
    ensures MirrorHolds(db, Run(Connected(db), es[..k]))
  {
    if k == 0 {
      ConnectedMirror(db);
    } else {
      MirrorUpTo(db, es, k - 1);
      assert StepPasses(db, Run(Connected(db), es[..k - 1]), es[k - 1]);
      MirrorStepAt(db, es, k - 1);
    }
  }

  // ---- a careful user ----

  /** What the user has done lately: selected a row, with the ids in the first
      column, since the last delete, and pressed Edit since the last delete, update
      or hand-typed id. */
  datatype Habit = Habit(selected: bool, editing: bool)

  predicate Careful(c: Client, h: Habit, e: Event) {
    match e
    case DeleteClick => h.selected
    case UpdateClick(_, _, _, _) => h.editing || c.editId.None?
    case TypeCell(_, _) => false
    case _ => true
  }

  function NextHabit(c: Client, h: Habit, e: Event): Habit {
    match e
    case Select(row) =>
      if c.HasRow(row) && c.ShownNumber(row).Some? then h.(selected := c.first.None?) else h
    case DeleteClick => Habit(false, false)
    case EditClick => if c.HasRow(c.selectedRow) then h.(editing := true) else h
    case TypeId(_) => if c.editIdEditable then h.(editing := false) else h
    case UpdateClick(_, _, _, _) => h.(editing := false)
    case _ => h
  }

  function HabitAfter(c: Client, es: seq<Event>): Habit {
    if es == [] then Habit(false, false)
    else NextHabit(Run(c, es[..|es| - 1]), HabitAfter(c, es[..|es| - 1]), es[|es| - 1])
  }

  predicate CarefulRun(c: Client, es: seq<Event>) {
    es == []
    || (CarefulRun(c, es[..|es| - 1])
        && Careful(Run(c, es[..|es| - 1]), HabitAfter(c, es[..|es| - 1]), es[|es| - 1]))
  }

  /** Only Delete, Update and hand-typed ids ask for care. */
  lemma CareIsForThree(c: Client, h: Habit, e: Event)
    ensures !e.DeleteClick? && !e.UpdateClick? && !e.TypeCell? ==> Careful(c, h, e)
    ensures e.DeleteClick? && h.selected ==> Careful(c, h, e)
    ensures e.UpdateClick? && (h.editing || c.editId.None?) ==> Careful(c, h, e)
    ensures e.EditClick? && c.HasRow(c.selectedRow) ==> NextHabit(c, h, e).editing
    ensures e.Select? && c.HasRow(e.row) && c.first.None? ==> NextHabit(c, h, e).selected
  {}

  /** What those habits guarantee about the handler fields. */
  ghost predicate HabitMeans(c: Client, h: Habit) {
    && (h.selected ==> c.HasRow(c.selectedRow) && c.billboardID == Some(c.rows[c.selectedRow].id))
    && (h.editing ==> c.HasRow(c.rowToEdit) && c.editId == Some(c.rows[c.rowToEdit].id))
  }

  lemma CarefulStep(c: Client, h: Habit, e: Event)
    requires HabitMeans(c, h) && Careful(c, h, e)
    ensures HabitMeans(Step(c, e), NextHabit(c, h, e))
    ensures KeepsMirror(c, e) && !NullDelete(c, e)
  {}

  predicate IsSubmit(e: Event) { e.SubmitClick? }

  function Submits(es: seq<Event>): nat {
    if es == [] then 0 else Submits(es[..|es| - 1]) + (if IsSubmit(es[|es| - 1]) then 1 else 0)
  }

  /** How many Submits the tables bear: any number with a counter; with a default
      id, one, and none if that id is in the snapshot. */
  predicate Bears(db: Database, submits: nat) {
    match db.viewIds
    case AutoIncrement(_) => true
    case DefaultId(id) => submits == 0 || (submits == 1 && id !in Snapshot(db))
  }

  /** Before the first Submit `view` only loses ids. */
  lemma {:induction false} NoNewIds(db: Database, es: seq<Event>, id: int)
    requires Submits(es) == 0 && WellServed(db, es)
    ensures id in Ids(Final(db, Run(Connected(db), es)).db.view) ==> id in Snapshot(db)
  {
    if es == [] {
      ConnectedFinal(db);
      SnapshotIs(db, id);
    } else {
      var front, e := es[..|es| - 1], es[|es| - 1];
      NoNewIds(db, front, id);
      FramingOfRuns(db, front);
      IdsAfter(db, Run(Connected(db), front), e, id);
    }
  }

  /** How one handler changes which ids `view` holds. */
  lemma IdsAfter(db: Database, c: Client, e: Event, id: int)
    requires Final(db, c).phase == AwaitTag
    ensures var f := Final(db, c).db;
      id in Ids(Final(db, Step(c, e)).db.view)
      <==> (id in Ids(f.view) && !(e.DeleteClick? && c.billboardID == Some(id)))
           || (e.SubmitClick? && id == NewViewId(f))
  {
    var f := Final(db, c);
    FinalStep(db, c, e);
    if NullDelete(c, e) {
      assert Drain(f, [Tag("delete")]) == Drain(Consume(f, Tag("delete")), []);
    } else if RequestOf(c, e).Some? {
      var r := RequestOf(c, e).value;
      var n := Apply(f.db, r);
      DrainFrame(f, r);
      match r {
        case AddBillboard(name, m, i, u) =>
          IdOfRow(f.db.view, id);
          IdOfRow(n.view, id);
          forall w ensures w in n.view <==> w in f.db.view || (!Refuses(f.db, r) && w == NewView(f.db, name, m, i, u)) {
            AddedRows(f.db, r, w);
          }
          assert NewView(f.db, name, m, i, u).id == NewViewId(f.db);
          if !Refuses(f.db, r) { assert NewView(f.db, name, m, i, u) in n.view; }
        case DeleteRow(d) =>
          DeletedIds(f.db.view, d);
          WithoutMembers(Ids(f.db.view), d, id);
        case AddView(_, _, _, _) => assert Ids(n.view) == Ids(f.db.view);
        case _ =>
      }
    }
  }

  /** Every careful run with no more Submits than the tables bear keeps the mirror
      and the framing. */
  lemma {:induction false} CarefulRunKeepsMirror(db: Database, es: seq<Event>)
    requires Ordered(db) && CarefulRun(Connected(db), es) && Bears(db, Submits(es))
    ensures var c := Run(Connected(db), es);
      && MirrorHolds(db, c) && Final(db, c).phase == AwaitTag
      && HabitMeans(c, HabitAfter(Connected(db), es))
      && WellServed(db, es)
  {
    if es == [] {
      ConnectedMirror(db);
    } else {
      var front, e := es[..|es| - 1], es[|es| - 1];
      CarefulRunKeepsMirror(db, front);
      var c, h := Run(Connected(db), front), HabitAfter(Connected(db), front);
      CarefulStep(c, h, e);
      StepKeepsMirrorIff(db, c, e);
      NumberingStays(db, c);
      if e.SubmitClick? && db.viewIds.DefaultId? { NoNewIds(db, front, db.viewIds.id); }
      FramingOfRuns(db, es);
    }
  }

  /** After a careful run the client's table shows exactly the rows of the snapshot
      that the user has not deleted. */
  lemma CarefulRunShowsSurvivors(db: Database, es: seq<Event>, id: int)
    requires Ordered(db) && CarefulRun(Connected(db), es) && Bears(db, Submits(es))
    ensures id in Ids(Run(Connected(db), es).rows)
       <==> id in Ids(db.view) && DeleteRow(id) !in RequestsOf(Connected(db), es)
  {
    var c, rs := Run(Connected(db), es), RequestsOf(Connected(db), es);
    CarefulRunKeepsMirror(db, es);
    CleanRunIsCarriedOut(db, es);
    var after := ApplyAll(db, rs).view;
    RestrictMembers(Ids(after), Snapshot(db), id);
    SnapshotIs(db, id);
    if id in Ids(db.view) {
      var k :| 0 <= k < |db.view| && Ids(db.view)[k] == id;
      RowIsUnique(db.view, k);
      NotReusedInRun(db, es, k);
      ViewFate(db, rs, db.view[k]);
      IdOfRow(after, id);
    }
  }

  /** The last press of Schedule whose id text names an id. */
  function LastScheduleClick(es: seq<Event>, id: int): Option<Event> {
    if es == [] then None
    else
      var e := es[|es| - 1];
      if e.ScheduleClick? && IdNumber(e.idText) == Some(id) then Some(e)
      else LastScheduleClick(es[..|es| - 1], id)
  }

  lemma {:induction false} LastOfMore(rs: seq<Request>, r: Request, id: int)
    ensures LastSchedule(rs + [r], id) == if Names(r, id) then Some(r) else LastSchedule(rs, id)
  {
    if rs == [] {
      assert [] + [r] == [r] && [r][1..] == [];
    } else {
      LastOfMore(rs[1..], r, id);
      assert (rs + [r])[0] == rs[0] && (rs + [r])[1..] == rs[1..] + [r];
    }
  }

  function ScheduleRequest(e: Option<Event>): Option<Request> {
    match e
    case Some(ScheduleClick(t, d, s, f)) => Some(AddView(t, d, s, f))
    case _ => None
  }

  lemma {:induction false} LastScheduleIsClick(c: Client, es: seq<Event>, id: int)
    ensures LastSchedule(RequestsOf(c, es), id) == ScheduleRequest(LastScheduleClick(es, id))
  {
    if es != [] {
      var front, e := es[..|es| - 1], es[|es| - 1];
      LastScheduleIsClick(c, front, id);
      LastOfRun(c, front, e, id);
      assert es == front + [e];
    }
  }

  lemma LastOfRun(c: Client, front: seq<Event>, e: Event, id: int)
    ensures LastSchedule(RequestsOf(c, front + [e]), id)
         == if e.ScheduleClick? && IdNumber(e.idText) == Some(id) then ScheduleRequest(Some(e))
            else LastSchedule(RequestsOf(c, front), id)
  {
    var rs, r := RequestsOf(c, front), RequestOf(Run(c, front), e);
    assert (front + [e])[..|front|] == front;
    if r.Some? {
      LastOfMore(rs, r.value, id);
    } else {
      assert RequestsOf(c, front + [e]) == rs;
    }
  }

  /** After a careful run a row of the snapshot that the user has not deleted is in
      `view`, alone with its id, with the date, start and end of the last Schedule
      that names it, and otherwise as it was. */
  lemma CarefulRunSchedules(db: Database, es: seq<Event>, v: View)
    requires Ordered(db) && CarefulRun(Connected(db), es) && Bears(db, Submits(es))
    requires v in db.view && DeleteRow(v.id) !in RequestsOf(Connected(db), es)
    ensures ShowsOnly(Final(db, Run(Connected(db), es)).db.view,
              match LastScheduleClick(es, v.id)
              case Some(ScheduleClick(t, d, s, e)) =>
                View(v.id, v.name, v.message, v.info, v.url, Some(d), Some(s), Some(e))
              case _ => v)
  {
    var rs := RequestsOf(Connected(db), es);
    CarefulRunKeepsMirror(db, es);
    CleanRunIsCarriedOut(db, es);
    var k :| 0 <= k < |db.view| && db.view[k] == v;
    RowIsUnique(db.view, k);
    NotReusedInRun(db, es, k);
    ViewFate(db, rs, v);
    LastScheduleIsClick(Connected(db), es, v.id);
  }

  lemma NotReusedInRun(db: Database, es: seq<Event>, k: nat)
    requires Ordered(db) && Bears(db, Submits(es)) && k < |db.view|
    ensures NotReused(db, RequestsOf(Connected(db), es), db.view[k].id)
  {
    assert Ids(db.view)[k] == db.view[k].id;
    SnapshotIs(db, db.view[k].id);
    if db.viewIds.DefaultId? && Submits(es) == 0 { NoAdds(Connected(db), es); }
  }

  lemma {:induction false} NoAdds(c: Client, es: seq<Event>)
    requires Submits(es) == 0
    ensures forall r :: r in RequestsOf(c, es) ==> !r.AddBillboard?
  {
    if es != [] { NoAdds(c, es[..|es| - 1]); }
  }

  lemma RowIsUnique(view: seq<View>, k: nat)
    requires Sorted(Ids(view)) && k < |view|
    ensures ShowsOnly(view, view[k])
  {
    forall w | w in view && w.id == view[k].id ensures w == view[k] {
      var j :| 0 <= j < |view| && view[j] == w;
      assert Ids(view)[j] == Ids(view)[k];
    }
  }

  // ---- how many Submits a careful run can have ----

  ghost predicate ServedAndMirrored(db: Database, es: seq<Event>) {
    WellServed(db, es) && MirrorThroughout(db, es)
  }

  /** Once submitted, the default id stays in `view`: a careful user deletes only
      rows that are shown, and it is none of them. */
  lemma {:induction false} DefaultStays(db: Database, es: seq<Event>)
    requires Ordered(db) && db.viewIds.DefaultId? && db.viewIds.id !in Snapshot(db) && Submits(es) == 1
    requires CarefulRun(Connected(db), es)
    ensures db.viewIds.id in Ids(Final(db, Run(Connected(db), es)).db.view)
  {
    var d, front, e := db.viewIds.id, es[..|es| - 1], es[|es| - 1];
    var c, h := Run(Connected(db), front), HabitAfter(Connected(db), front);
    CarefulRunKeepsMirror(db, front);
    NumberingStays(db, c);
    IdsAfter(db, c, e, d);
    if !IsSubmit(e) {
      DefaultStays(db, front);
      RestrictMembers(Ids(Final(db, c).db.view), Snapshot(db), d);
      if h.selected { assert Ids(c.rows)[c.selectedRow] == c.rows[c.selectedRow].id; }
    }
  }

  lemma LastSubmitFails(db: Database, es: seq<Event>)
    requires Ordered(db) && CarefulRun(Connected(db), es) && es != []
    requires Bears(db, Submits(es[..|es| - 1])) && !Bears(db, Submits(es))
    ensures !WellServed(db, es) || !MirrorHolds(db, Run(Connected(db), es))
  {
    var d, front, e := db.viewIds.id, es[..|es| - 1], es[|es| - 1];
    var c := Run(Connected(db), front);
    CarefulRunKeepsMirror(db, front);
    NumberingStays(db, c);
    StepKeepsMirrorIff(db, c, e);
    if d !in Snapshot(db) { DefaultStays(db, front); }
  }

  lemma {:induction false} TooManyFail(db: Database, es: seq<Event>)
    requires Ordered(db) && CarefulRun(Connected(db), es) && !Bears(db, Submits(es))
    ensures !ServedAndMirrored(db, es)
  {
    var front := es[..|es| - 1];
    if Bears(db, Submits(front)) {
      LastSubmitFails(db, es);
      assert es[..|es|] == es;
    } else {
      TooManyFail(db, front);
      if WellServed(db, front) {
        var k :| 0 <= k <= |front| && !MirrorHolds(db, Run(Connected(db), front[..k]));
        assert es[..k] == front[..k];
      }
    }
  }

  lemma {:induction false} CarefulPrefix(c: Client, es: seq<Event>, k: nat)
    requires k <= |es| && CarefulRun(c, es)
    ensures CarefulRun(c, es[..k]) && Submits(es[..k]) <= Submits(es)
  {
    if k == |es| {
      assert es[..k] == es;
    } else {
      CarefulPrefix(c, es[..|es| - 1], k);
      assert es[..|es| - 1][..k] == es[..k];
    }
  }

  /** For a careful user, the server survives and the mirror holds at every moment
      if and only if the number of Submits is one that the tables bear. */
  lemma CarefulRunIff(db: Database, es: seq<Event>)
    requires Ordered(db) && CarefulRun(Connected(db), es)
    ensures ServedAndMirrored(db, es) <==> Bears(db, Submits(es))
  {
    if Bears(db, Submits(es)) {
      CarefulRunKeepsMirror(db, es);
      forall k | 0 <= k <= |es| ensures MirrorHolds(db, Run(Connected(db), es[..k])) {
        CarefulPrefix(Connected(db), es, k);
        CarefulRunKeepsMirror(db, es[..k]);
      }
    } else {
      TooManyFail(db, es);
    }
  }

  /** Safety over every interleaving: at each moment the client's id column is the
      id column of the server's view table with all pending tokens applied,
      restricted to the ids of the initial snapshot and in the same order. Each
      delete follows a selection of its own, no delete falls between Edit and
      Update, and there are no more Submits than the tables bear. */
  lemma MirrorInEveryInterleaving(db: Database, acts: seq<Action>)
    requires Ordered(db) && CarefulRun(Connected(db), EventsOf(acts)) && Bears(db, Submits(EventsOf(acts)))
    ensures var s := SystemRun(Joined(db), acts);
      && s.taken <= |s.client.sent|
      && Ids(s.client.rows) == Restrict(Ids(Drain(s.server, s.client.sent[s.taken..]).db.view), Snapshot(db))
      && Drain(s.server, s.client.sent[s.taken..]).phase == AwaitTag
      && (s.taken == |s.client.sent| ==> Ids(s.client.rows) == Restrict(Ids(s.server.db.view), Snapshot(db)))
  {
    InterleavingIsPrefix(db, acts);
    CarefulRunKeepsMirror(db, EventsOf(acts));
  }

  // ---- runs that break it ----

  lemma RunOne(c: Client, e: Event)
    ensures Run(c, [e]) == Step(c, e)
  {
    assert [e][..0] == [];
  }

  lemma RunMore(c: Client, es: seq<Event>, e: Event)
    ensures Run(c, es + [e]) == Step(Run(c, es), e)
    ensures HabitAfter(c, es + [e]) == NextHabit(Run(c, es), HabitAfter(c, es), e)
    ensures CarefulRun(c, es + [e]) <==> CarefulRun(c, es) && Careful(Run(c, es), HabitAfter(c, es), e)
    ensures Submits(es + [e]) == Submits(es) + (if IsSubmit(e) then 1 else 0)
  {
    assert (es + [e])[..|es|] == es;
  }

  /** A row selected and deleted: a careful run, and the mirror holds. */
  lemma SelectAndDelete(db: Database, row: nat)
    requires Ordered(db) && row < |db.view|
    ensures var es := [Select(row), DeleteClick]; var c := Run(Connected(db), es);
      && CarefulRun(Connected(db), es) && Submits(es) == 0
      && c.rows == WithoutRow(db.view, row) && c.billboardID == Some(db.view[row].id) && c.selectedRow == row
      && Expected(db, c) == Without(Ids(db.view), db.view[row].id)
      && MirrorHolds(db, c) && Final(db, c).phase == AwaitTag
  {
    var c0, s := Connected(db), Select(row);
    ConnectedFinal(db);
    ConnectedMirror(db);
    RunMore(c0, [], s);
    assert [] + [s] == [s] && [s] + [DeleteClick] == [s, DeleteClick];
    RunMore(c0, [s], DeleteClick);
    ExpectedAfter(db, Step(c0, s), DeleteClick);
    CarefulRunKeepsMirror(db, [s, DeleteClick]);
  }

  /** Two deletes on one selection: the second removes a row the server keeps, in
      every table that has a row behind the selected one. */
  lemma StaleDeleteBreaksMirror(db: Database, row: nat)
    requires Ordered(db) && row + 1 < |db.view|
    ensures !MirrorHolds(db, Run(Connected(db), [Select(row), DeleteClick, DeleteClick]))
  {
    var c0, es := Connected(db), [Select(row), DeleteClick];
    SelectAndDelete(db, row);
    assert es + [DeleteClick] == [Select(row), DeleteClick, DeleteClick];
    RunMore(c0, es, DeleteClick);
    assert Ids(db.view)[row] < Ids(db.view)[row + 1];
    StepKeepsMirrorIff(db, Run(c0, es), DeleteClick);
  }

  /** With a default id, the row that carries it selected and deleted, then a
      Submit: every statement succeeds, and `view` holds the id again while the
      client shows no row with it. */
  lemma ReusedIdBreaksMirror(db: Database, row: nat, n: string, m: string, i: string, u: string)
    requires Ordered(db) && row < |db.view| && db.viewIds == DefaultId(db.view[row].id)
    ensures var es := [Select(row), DeleteClick, SubmitClick(n, m, i, u)]; var c := Run(Connected(db), es);
      && CarefulRun(Connected(db), es) && WellServed(db, es) && !MirrorHolds(db, c)
      && db.view[row].id in Ids(Final(db, c).db.view) && db.view[row].id !in Ids(c.rows)
  {
    var c0, es, e, id := Connected(db), [Select(row), DeleteClick], SubmitClick(n, m, i, u), db.view[row].id;
    SelectAndDelete(db, row);
    assert es + [e] == [Select(row), DeleteClick, e];
    RunMore(c0, es, e);
    var c := Run(c0, es);
    NumberingStays(db, c);
    SnapshotIs(db, id);
    assert Ids(db.view)[row] == id;
    WithoutMembers(Ids(db.view), id, id);
    RestrictMembers(Ids(Final(db, c).db.view), Snapshot(db), id);
    StepKeepsMirrorIff(db, c, e);
    IdsAfter(db, c, e, id);
    CarefulRunKeepsMirror(db, es);
    assert (es + [e])[..2] == es;
  }

  /** The new row is then shown beside a `billboard` row that is not its own. */
  lemma ReusedIdUnpairs(db: Database, row: nat, n: string, m: string, i: string, u: string)
    requires Paired(db, {}) && row < |db.view| && db.viewIds == DefaultId(db.view[row].id)
    requires Cells(db.view[row]) != (db.view[row].id, n, m, i, u)
    ensures !Paired(Apply(Apply(db, DeleteRow(db.view[row].id)), AddBillboard(n, m, i, u)), {})
  {
    var id, r := db.view[row].id, AddBillboard(n, m, i, u);
    var d := Apply(db, DeleteRow(id));
    ApplyKeepsPairedIff(db, DeleteRow(id), {});
    assert {} + EditedBy(DeleteRow(id)) == {};
    AddKeepsPairedIff(d, r, {});
    DeletedIds(db.view, id);
    WithoutMembers(Ids(db.view), id, id);
    assert HasPartner(db, db.view[row], {});
    var k :| 0 <= k < |db.billboard| && db.billboard[k].id == id && SameCells(db.billboard[k], db.view[row]);
    assert BillboardIds(db.billboard)[k] == id;
    forall j | 0 <= j < |db.billboard| && db.billboard[j].id == id ensures j == k {
      assert BillboardIds(db.billboard)[j] == id;
    }
  }

  /** Another column dragged to the front, and a row selected whose cell there
      reads as a number other than its id: the next Delete breaks the mirror. */
  lemma DraggedHeaderBreaksMirror(db: Database, row: nat, column: Column)
    requires Ordered(db) && row < |db.view| && CellText(db.view[row], column).Some?
    requires ParseInt(CellText(db.view[row], column).value) !in {None, Some(db.view[row].id)}
    ensures !MirrorHolds(db, Run(Connected(db), [DragHeader(Some(column)), Select(row), DeleteClick]))
  {
    var c0, es := Connected(db), [DragHeader(Some(column)), Select(row)];
    ConnectedFinal(db);
    ConnectedMirror(db);
    DragAndSelect(c0, row, column);
    assert es + [DeleteClick] == [DragHeader(Some(column)), Select(row), DeleteClick];
    RunMore(c0, es, DeleteClick);
    StepKeepsMirrorIff(db, Run(c0, es), DeleteClick);
  }

  lemma DragAndSelect(c: Client, row: nat, column: Column)
    requires c.HasRow(row) && CellText(c.rows[row], column).Some?
    requires ParseInt(CellText(c.rows[row], column).value).Some?
    ensures Run(c, [DragHeader(Some(column)), Select(row)])
         == c.(first := Some(column), billboardID := ParseInt(CellText(c.rows[row], column).value), selectedRow := row)
  {
    var drag := DragHeader(Some(column));
    RunOne(c, drag);
    assert [drag, Select(row)][..1] == [drag];
    assert Step(c, drag).ShownNumber(row) == ParseInt(CellText(c.rows[row], column).value);
  }

  /** An id typed into the form before Edit was ever pressed, other than that of
      the first row: the next Update breaks the mirror. */
  lemma TypedIdBreaksMirror(db: Database, id: int, n: string, m: string, i: string, u: string)
    requires Ordered(db) && db.view != [] && id != db.view[0].id
    ensures !MirrorHolds(db, Run(Connected(db), [TypeId(Some(id)), UpdateClick(n, m, i, u)]))
  {
    var c0, typed, e := Connected(db), TypeId(Some(id)), UpdateClick(n, m, i, u);
    ConnectedMirror(db);
    ConnectedFinal(db);
    RunOne(c0, typed);
    assert [typed] + [e] == [typed, e];
    RunMore(c0, [typed], e);
    StepKeepsMirrorIff(db, Step(c0, typed), e);
  }

  /** An id typed into a cell: it breaks the mirror at once unless it is the old one. */
  lemma TypedCellBreaksMirror(db: Database, row: nat, id: int)
    requires Ordered(db) && row < |db.view| && id != db.view[row].id
    ensures !MirrorHolds(db, Run(Connected(db), [TypeCell(row, id)]))
  {
    ConnectedMirror(db);
    ConnectedFinal(db);
    RunOne(Connected(db), TypeCell(row, id));
    StepKeepsMirrorIff(db, Connected(db), TypeCell(row, id));
  }

  // ---- beyond the ids ----

  /** The cells that the Edit form shows. */
  function Cells(v: View): (int, string, string, string, string) {
    (v.id, v.name, v.message, v.info, v.url)
  }

  function AllCells(view: seq<View>): (r: seq<(int, string, string, string, string)>)
    ensures |r| == |view| && forall k :: 0 <= k < |view| ==> r[k] == Cells(view[k])
  {
    seq(|view|, k requires 0 <= k < |view| => Cells(view[k]))
  }

  function RestrictRows(view: seq<View>, keep: set<int>): seq<View> {
    if view == [] then []
    else (if view[0].id in keep then [view[0]] else []) + RestrictRows(view[1..], keep)
  }

  function ExpectedRows(db: Database, c: Client): seq<View> {
    RestrictRows(Final(db, c).db.view, Snapshot(db))
  }

  ghost predicate CellsMirrored(db: Database, c: Client) {
    AllCells(c.rows) == AllCells(ExpectedRows(db, c))
  }

  lemma {:induction false} RestrictNoRows(view: seq<View>, keep: set<int>)
    requires forall k :: 0 <= k < |view| ==> view[k].id in keep
    ensures RestrictRows(view, keep) == view
  {
    if view != [] { RestrictNoRows(view[1..], keep); }
  }

  lemma ConnectedCells(db: Database)
    ensures CellsMirrored(db, Connected(db))
  {
    ConnectedFinal(db);
    RestrictNoRows(db.view, Snapshot(db));
  }

  lemma {:induction false} IdsOfRestricted(view: seq<View>, keep: set<int>)
    ensures Ids(RestrictRows(view, keep)) == Restrict(Ids(view), keep)
  {
    if view != [] {
      IdsOfRestricted(view[1..], keep);
      assert Ids(view)[1..] == Ids(view[1..]);
    }
  }

  /** Rows with the same cells have the same ids. */
  lemma CellsGiveIds(db: Database, c: Client)
    requires CellsMirrored(db, c)
    ensures MirrorHolds(db, c)
  {
    var rows := ExpectedRows(db, c);
    IdsOfRestricted(Final(db, c).db.view, Snapshot(db));
    forall k | 0 <= k < |rows| ensures c.rows[k].id == rows[k].id {
      assert AllCells(c.rows)[k] == AllCells(rows)[k];
    }
  }

  // How a restricted table moves with each statement.

  lemma {:induction false} RestrictAdded(view: seq<View>, v: View, keep: set<int>)
    requires v.id !in keep
    ensures RestrictRows(view + [v], keep) == RestrictRows(view, keep)
    ensures RestrictRows(InsertById(view, v), keep) == RestrictRows(view, keep)
  {
    assert ([v] + view)[1..] == view;
    if view == [] {
      assert view + [v] == [v] && [v][1..] == [];
    } else {
      RestrictAdded(view[1..], v, keep);
      assert (view + [v])[1..] == view[1..] + [v];
    }
  }

  lemma {:induction false} RestrictDeleted(view: seq<View>, id: int, keep: set<int>)
    ensures RestrictRows(DeleteViews(view, id), keep) == DeleteViews(RestrictRows(view, keep), id)
  {
    if view != [] {
      RestrictDeleted(view[1..], id, keep);
      var r, w := RestrictRows(view[1..], keep), DeleteViews(view[1..], id);
      if view[0].id != id {
        assert DeleteViews(view, id)[1..] == w;
      } else {
        assert DeleteViews(view, id) == w;
      }
      if view[0].id in keep {
        assert RestrictRows(view, keep)[1..] == r;
      } else {
        assert RestrictRows(view, keep) == r;
        assert [] + RestrictRows(w, keep) == RestrictRows(w, keep);
      }
    }
  }

  lemma {:induction false} RestrictScheduled(view: seq<View>, r: Request, keep: set<int>)
    requires r.AddView?
    ensures var after := ScheduleViews(view, r.idText, r.date, r.startTime, r.endTime);
      AllCells(RestrictRows(after, keep)) == AllCells(RestrictRows(view, keep))
  {
    if view != [] {
      RestrictScheduled(view[1..], r, keep);
      var after := ScheduleViews(view, r.idText, r.date, r.startTime, r.endTime);
      assert after[1..] == ScheduleViews(view[1..], r.idText, r.date, r.startTime, r.endTime);
      assert Cells(after[0]) == Cells(view[0]);
      CellsAppend(if view[0].id in keep then [after[0]] else [], RestrictRows(after[1..], keep));
      CellsAppend(if view[0].id in keep then [view[0]] else [], RestrictRows(view[1..], keep));
    }
  }

  lemma CellsAppend(a: seq<View>, b: seq<View>)
    ensures AllCells(a + b) == AllCells(a) + AllCells(b)
  {}

  /** In a table of distinct ids, deleting by id is removing the row that has it. */
  lemma {:induction false} DeleteIsRemoveAt(view: seq<View>, k: nat)
    requires Sorted(Ids(view)) && k < |view|
    ensures DeleteViews(view, view[k].id) == WithoutRow(view, k)
  {
    assert Ids(view)[1..] == Ids(view[1..]);
    if k == 0 {
      DeleteAbsent(view[1..], view[0].id);
    } else {
      DeleteIsRemoveAt(view[1..], k - 1);
      assert Ids(view)[0] < Ids(view)[k];
      assert WithoutRow(view, k) == [view[0]] + WithoutRow(view[1..], k - 1);
    }
  }

  lemma {:induction false} DeleteAbsent(view: seq<View>, id: int)
    requires id !in Ids(view)
    ensures DeleteViews(view, id) == view
  {
    if view != [] {
      assert Ids(view)[0] == view[0].id && Ids(view)[1..] == Ids(view[1..]);
      DeleteAbsent(view[1..], id);
    }
  }

  /** What a handler does to the rows that the client should show: only a delete
      changes a cell of them, as long as no unseen row turns up. */
  lemma ExpectedRowsAfter(db: Database, c: Client, e: Event)
    requires Ordered(Final(db, c).db) && Final(db, c).phase == AwaitTag
    requires e.SubmitClick? ==> NewRowUnseen(db, c)
    ensures AllCells(ExpectedRows(db, Step(c, e)))
         == if e.DeleteClick? && c.billboardID.Some?
            then AllCells(DeleteViews(ExpectedRows(db, c), c.billboardID.value))
            else AllCells(ExpectedRows(db, c))
  {
    var f, keep := Final(db, c), Snapshot(db);
    FinalStep(db, c, e);
    if NullDelete(c, e) {
      assert Drain(f, [Tag("delete")]) == Drain(Consume(f, Tag("delete")), []);
    } else if RequestOf(c, e).Some? {
      var r := RequestOf(c, e).value;
      DrainFrame(f, r);
      match r {
        case AddBillboard(n, m, i, u) =>
          if !Refuses(f.db, r) { AddedUnseen(db, c, r); }
        case DeleteRow(id) => RestrictDeleted(f.db.view, id, keep);
        case AddView(_, _, _, _) => RestrictScheduled(f.db.view, r, keep);
        case _ =>
      }
    }
  }

  /** Each handler, each way of numbering: what the client should do for the cells
      to stay mirrored. */
  predicate KeepsCells(c: Client, e: Event) {
    KeepsMirror(c, e)
    && match e
       case UpdateClick(n, m, i, u) =>
         c.editId.Some? && c.HasRow(c.rowToEdit) ==> Cells(c.rows[c.rowToEdit]) == (c.editId.value, n, m, i, u)
       case TypeText(row, column, text) =>
         c.HasRow(row) ==> Cells(WithText(c.rows[row], column, text)) == Cells(c.rows[row])
       case _ => true
  }

  lemma AddedUnseen(db: Database, c: Client, r: Request)
    requires var f := Final(db, c).db; r.AddBillboard? && Ordered(f) && !Refuses(f, r) && NewRowUnseen(db, c)
    ensures var f, keep := Final(db, c).db, Snapshot(db);
      RestrictRows(Apply(f, r).view, keep) == RestrictRows(f.view, keep)
  {
    var f := Final(db, c).db;
    RestrictAdded(f.view, NewView(f, r.name, r.message, r.info, r.url), Snapshot(db));
  }

  /** One cell or row set to something: the column of cells stays as it was exactly
      if that is what was there. */
  lemma CellsSet(rows: seq<View>, row: nat, v: View)
    requires row < |rows|
    ensures AllCells(rows[row := v]) == AllCells(rows) <==> Cells(v) == Cells(rows[row])
  {
    if Cells(v) != Cells(rows[row]) {
      assert AllCells(rows[row := v])[row] != AllCells(rows)[row];
    }
  }

  lemma RemoveBoth(db: Database, c: Client, row: nat)
    requires CellsMirrored(db, c) && Ordered(Final(db, c).db) && row < |c.rows|
    ensures AllCells(WithoutRow(c.rows, row)) == AllCells(DeleteViews(ExpectedRows(db, c), c.rows[row].id))
  {
    var rows, view, keep := ExpectedRows(db, c), Final(db, c).db.view, Snapshot(db);
    IdsOfRestricted(view, keep);
    RestrictSorted(Ids(view), keep);
    forall k | 0 <= k < |rows| ensures Cells(c.rows[k]) == Cells(rows[k]) {
      assert AllCells(c.rows)[k] == AllCells(rows)[k];
    }
    DeleteIsRemoveAt(rows, row);
  }

  /** Each handler, from any state in which all cells are mirrored: they are
      mirrored afterwards if and only if the id check passes, an update or a typed
      text changes nothing, and a Submit adds no row with a snapshot id. */
  lemma StepKeepsCellsIff(db: Database, c: Client, e: Event)
    requires Ordered(db) && CellsMirrored(db, c) && Final(db, c).phase == AwaitTag
    ensures CellsMirrored(db, Step(c, e)) <==> KeepsCells(c, e) && (e.SubmitClick? ==> NewRowUnseen(db, c))
  {
    CellsGiveIds(db, c);
    StepKeepsMirrorIff(db, c, e);
    FinalIsOrdered(db, c);
    if CellsMirrored(db, Step(c, e)) { CellsGiveIds(db, Step(c, e)); }
    if KeepsMirror(c, e) && (e.SubmitClick? ==> NewRowUnseen(db, c)) {
      ExpectedRowsAfter(db, c, e);
      match e {
        case DeleteClick =>
          if c.billboardID.Some? {
            if c.HasRow(c.selectedRow) {
              RemoveBoth(db, c, c.selectedRow);
            } else {
              IdsOfRestricted(Final(db, c).db.view, Snapshot(db));
              DeleteAbsent(ExpectedRows(db, c), c.billboardID.value);
            }
          }
        case UpdateClick(n, m, i, u) =>
          if c.editId.Some? && c.HasRow(c.rowToEdit) {
            CellsSet(c.rows, c.rowToEdit, Step(c, e).rows[c.rowToEdit]);
          }
        case TypeCell(row, id) => if c.HasRow(row) { CellsSet(c.rows, row, Step(c, e).rows[row]); }
        case TypeText(row, column, text) => if c.HasRow(row) { CellsSet(c.rows, row, Step(c, e).rows[row]); }
        case _ =>
      }
    }
  }

  /** An update changes the client's row and the `billboard` table, but not the
      `view` table that the client's rows come from: the cells still agree
      afterwards if and only if the update changed nothing. */
  lemma UpdateKeepsCellsIff(db: Database, c: Client, n: string, m: string, i: string, u: string)
    requires CellsMirrored(db, c) && Final(db, c).phase == AwaitTag
    requires c.HasRow(c.rowToEdit) && c.editId.Some?
    ensures CellsMirrored(db, Step(c, UpdateClick(n, m, i, u)))
       <==> Cells(c.rows[c.rowToEdit]) == (c.editId.value, n, m, i, u)
  {
    var e := UpdateClick(n, m, i, u);
    var after, k := Step(c, e), c.rowToEdit;
    FinalStep(db, c, e);
    DrainFrame(Final(db, c), RequestOf(c, e).value);
    assert Final(db, after).db.view == Final(db, c).db.view;
    assert AllCells(after.rows)[k] == (c.editId.value, n, m, i, u);
    assert AllCells(after.rows) == AllCells(c.rows)[k := (c.editId.value, n, m, i, u)];
  }

  /** The plainest edit breaks the cells: select the first row, press Edit, change
      a cell, press Update. Up to the last click they agree. */
  lemma EditBreaksCells(db: Database, n: string, m: string, i: string, u: string)
    requires db.view != [] && Cells(db.view[0]) != (db.view[0].id, n, m, i, u)
    ensures var c0, e := Connected(db), UpdateClick(n, m, i, u);
      && CarefulRun(c0, [Select(0), EditClick, e])
      && CellsMirrored(db, Run(c0, [Select(0), EditClick]))
      && !CellsMirrored(db, Run(c0, [Select(0), EditClick, e]))
  {
    var c0, e := Connected(db), UpdateClick(n, m, i, u);
    ConnectedCells(db);
    ConnectedFinal(db);
    var es := [Select(0), EditClick, e];
    assert es[..2] == [Select(0), EditClick] && es[..2][..1] == [Select(0)] && [Select(0)][..0] == [];
    assert Run(c0, []) == c0 && HabitAfter(c0, []) == Habit(false, false);
    var c1 := Run(c0, [Select(0)]);
    assert c1 == Step(c0, Select(0)) && CarefulRun(c0, [Select(0)]);
    var c2 := Run(c0, es[..2]);
    assert c2 == Step(c1, EditClick) && CarefulRun(c0, es[..2]);
    assert c2.rows == c0.rows && c2.sent == c0.sent;
    assert HabitAfter(c0, es[..2]) == NextHabit(c1, HabitAfter(c0, [Select(0)]), EditClick);
    UpdateKeepsCellsIff(db, c2, n, m, i, u);
  }

  // ---- what the client does mirror cell by cell ----

  /** Each of the rows has its row of `billboard`; the two show the same cells
      unless the id is among the edited ones. */
  ghost predicate ShowsBillboard(db: Database, rows: seq<View>, edited: set<int>) {
    forall k :: 0 <= k < |rows| ==> HasPartner(db, rows[k], edited)
  }

  /** A request other than an edit leaves every row its partner. */
  lemma PartnersStay(db: Database, r: Request, rows: seq<View>, edited: set<int>)
    requires ShowsBillboard(db, rows, edited) && !r.EditTable?
    ensures ShowsBillboard(Apply(db, r), rows, edited)
  {
    forall k | 0 <= k < |rows| ensures HasPartner(Apply(db, r), rows[k], edited) {
      PartnerKept(db, r, rows[k], rows[k], edited);
      assert edited + EditedBy(r) == edited;
    }
  }

  /** An edit of one row's id, made on both sides: the row and its partner change
      alike, and no other row has that id. */
  lemma EditOnBothSides(db: Database, r: Request, rows: seq<View>, row: nat, edited: set<int>)
    requires ShowsBillboard(db, rows, edited) && r.EditTable?
    requires Sorted(Ids(rows)) && row < |rows| && rows[row].id == r.id
    ensures ShowsBillboard(Apply(db, r),
              rows[row := rows[row].(name := r.name, message := r.message, info := r.info, url := r.url)],
              edited - {r.id})
  {
    var after := rows[row := rows[row].(name := r.name, message := r.message, info := r.info, url := r.url)];
    forall k | 0 <= k < |after| ensures HasPartner(Apply(db, r), after[k], edited - {r.id}) {
      assert Ids(rows)[k] == r.id ==> k == row;
      var j :| 0 <= j < |db.billboard| && db.billboard[j].id == rows[k].id
               && (rows[k].id !in edited ==> SameCells(db.billboard[j], rows[k]));
      assert after[k].id !in edited - {r.id} ==> SameCells(Apply(db, r).billboard[j], after[k]);
    }
  }

  /** The ids that a run has sent an edit for. */
  function UpdatedIds(c: Client, es: seq<Event>): set<int> {
    if es == [] then {} else UpdatedIds(c, es[..|es| - 1]) + UpdatedNow(Run(c, es[..|es| - 1]), es[|es| - 1])
  }

  function UpdatedNow(c: Client, e: Event): set<int> {
    match RequestOf(c, e) case Some(r) => EditedBy(r) case None => {}
  }

  lemma {:induction false} UpdatedIdsAre(c: Client, es: seq<Event>, id: int)
    ensures id in UpdatedIds(c, es) <==> exists r :: r in RequestsOf(c, es) && r.EditTable? && r.id == id
  {
    if es != [] {
      var front := es[..|es| - 1];
      UpdatedIdsAre(c, front, id);
      var rs, r := RequestsOf(c, front), RequestOf(Run(c, front), es[|es| - 1]);
      if r.Some? {
        assert r.value in RequestsOf(c, es);
        forall q | q in rs ensures q in RequestsOf(c, es) {}
      } else {
        assert RequestsOf(c, es) == rs;
      }
    }
  }

  /** The text columns that `billboard` has too are left alone. */
  predicate Untyped(e: Event) {
    e.TypeText? ==> e.column in {DateColumn, StartColumn, EndColumn}
  }

  lemma StepShowsBillboard(db: Database, c: Client, h: Habit, e: Event, edited: set<int>)
    requires HabitMeans(c, h) && Careful(c, h, e) && Untyped(e) && Final(db, c).phase == AwaitTag
    requires Sorted(Ids(c.rows)) && ShowsBillboard(Final(db, c).db, c.rows, edited)
    ensures ShowsBillboard(Final(db, Step(c, e)).db, Step(c, e).rows, edited - UpdatedNow(c, e))
  {
    CarefulStep(c, h, e);
    FinalStep(db, c, e);
    var d, n := Final(db, c).db, Step(c, e);
    if RequestOf(c, e).Some? {
      var r := RequestOf(c, e).value;
      DrainFrame(Final(db, c), r);
      if e.UpdateClick? {
        EditOnBothSides(d, r, c.rows, c.rowToEdit, edited);
      } else {
        PartnersStay(d, r, c.rows, edited);
        assert edited - UpdatedNow(c, e) == edited;
        forall k | 0 <= k < |n.rows| ensures n.rows[k] in c.rows {}
      }
    } else {
      assert edited - UpdatedNow(c, e) == edited;
      if e.TypeText? { TypedElsewhere(d, c, e, edited); }
    }
  }

  lemma TypedElsewhere(d: Database, c: Client, e: Event, edited: set<int>)
    requires e.TypeText? && Untyped(e) && ShowsBillboard(d, c.rows, edited)
    ensures ShowsBillboard(d, Step(c, e).rows, edited)
  {
    var n := Step(c, e);
    forall k | 0 <= k < |n.rows| ensures HasPartner(d, n.rows[k], edited) {
      PartnerKept(d, ShowTable, c.rows[k], n.rows[k], edited);
      assert edited + EditedBy(ShowTable) == edited;
    }
  }

  /** After every careful run that types into no text cell of the table, the
      client's table agrees, row by row and cell by cell, with the server's
      `billboard` table: an edit reaches both, and a deleted row leaves its
      `billboard` row behind. A row can differ only if its two records differed
      before the run and the run did not edit it. */
  lemma {:induction false} CarefulRunShowsBillboard(db: Database, es: seq<Event>, edited: set<int>)
    requires Paired(db, edited) && CarefulRun(Connected(db), es) && Bears(db, Submits(es))
    requires forall e :: e in es ==> Untyped(e)
    ensures var c := Run(Connected(db), es);
      ShowsBillboard(Final(db, c).db, c.rows, edited - UpdatedIds(Connected(db), es))
  {
    if es == [] {
      ConnectedFinal(db);
      assert edited - {} == edited;
    } else {
      var front, c0 := es[..|es| - 1], Connected(db);
      CarefulRunShowsBillboard(db, front, edited);
      CarefulRunKeepsMirror(db, front);
      var c := Run(c0, front);
      FinalIsOrdered(db, c);
      RestrictSorted(Ids(Final(db, c).db.view), Snapshot(db));
      var before, now := UpdatedIds(c0, front), UpdatedNow(c, es[|es| - 1]);
      StepShowsBillboard(db, c, HabitAfter(c0, front), es[|es| - 1], edited - before);
      assert (edited - before) - now == edited - UpdatedIds(c0, es);
    }
  }

  /** The same at every moment of every interleaving, against the table that the
      server will have once it has read what is pending. */
  lemma BillboardInEveryInterleaving(db: Database, acts: seq<Action>, edited: set<int>)
    requires Paired(db, edited) && CarefulRun(Connected(db), EventsOf(acts)) && Bears(db, Submits(EventsOf(acts)))
    requires forall e :: e in EventsOf(acts) ==> Untyped(e)
    ensures var s := SystemRun(Joined(db), acts);
      && s.taken <= |s.client.sent|
      && ShowsBillboard(Drain(s.server, s.client.sent[s.taken..]).db, s.client.rows,
                        edited - UpdatedIds(Connected(db), EventsOf(acts)))
  {
    InterleavingIsPrefix(db, acts);
    CarefulRunShowsBillboard(db, EventsOf(acts), edited);
  }

  /** A text typed into a cell of those columns breaks it at once, unless it is the
      old one: nothing is sent. */
  lemma TypedTextBreaksBillboard(db: Database, row: nat, column: Column, text: string)
    requires Paired(db, {}) && row < |db.view| && Cells(WithText(db.view[row], column, text)) != Cells(db.view[row])
    ensures var c := Run(Connected(db), [TypeText(row, column, text)]);
      !ShowsBillboard(Final(db, c).db, c.rows, {})
  {
    var c0, e := Connected(db), TypeText(row, column, text);
    ConnectedFinal(db);
    RunOne(c0, e);
    FinalStep(db, c0, e);
    var old', new' := db.view[row], Step(c0, e).rows[row];
    assert HasPartner(db, old', {});
    var k :| 0 <= k < |db.billboard| && db.billboard[k].id == old'.id && SameCells(db.billboard[k], old');
    assert BillboardIds(db.billboard)[k] == old'.id;
    forall j | 0 <= j < |db.billboard| && db.billboard[j].id == old'.id ensures j == k {
      assert BillboardIds(db.billboard)[j] == old'.id;
    }
    assert !HasPartner(db, new', {});
  }
}
