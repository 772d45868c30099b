/** The wire and the tables that clientGUI.java and Server.java share.

    The stream is a queue of tokens: a tag written with writeUTF or an object
    written with writeObject. The `billboard` and `view` tables are sequences of
    rows in key order. */
module Protocol {
  import opened Wrappers

  datatype Billboard = Billboard(id: int, name: string, message: string, info: string, url: string)

  /** A row of `view`; also a row of the client's table, column by column. */
  datatype View = View(id: int, name: string, message: string, info: string, url: string,
                       date: Option<string>, startTime: Option<string>, endTime: Option<string>)

  /** Where a row of `view` gets its id when the insert names none: from a counter,
      or from the default of the column. */
  datatype ViewIds = AutoIncrement(next: int) | DefaultId(id: int)

  datatype Database = Database(billboard: seq<Billboard>, view: seq<View>,
                               nextBillboard: int, viewIds: ViewIds)

  /** Add, Edit and Delete are the serialized classes; addBillboard and addView
      both send an Add. */
  datatype Token =
    | Tag(name: string)
    | AddObject(q1: string, q2: string, q3: string, q4: string)
    | EditObject(id: int, q1: string, q2: string, q3: string, q4: string)
    | DeleteObject(id: int)

  datatype Request =
    | AddBillboard(name: string, message: string, info: string, url: string)
    | AddView(idText: string, date: string, startTime: string, endTime: string)
    | ShowTable
    | DeleteRow(id: int)
    | EditTable(id: int, name: string, message: string, info: string, url: string)

  /** The tokens of one request. */
  function Frame(r: Request): seq<Token> {
    match r
    case AddBillboard(n, m, i, u) => [Tag("addBillboard"), AddObject(n, m, i, u)]
    case AddView(t, d, s, e) => [Tag("addView"), AddObject(t, d, s, e)]
    case ShowTable => [Tag("showTable")]
    case DeleteRow(id) => [Tag("delete"), DeleteObject(id)]
    case EditTable(id, n, m, i, u) => [Tag("editTable"), EditObject(id, n, m, i, u)]
  }

  function Frames(rs: seq<Request>): seq<Token> {
    if rs == [] then [] else Frame(rs[0]) + Frames(rs[1..])
  }

  lemma {:induction false} FramesAppend(rs: seq<Request>, ss: seq<Request>)
    ensures Frames(rs + ss) == Frames(rs) + Frames(ss)
  {
    if rs == [] {
      assert rs + ss == ss;
    } else {
      FramesAppend(rs[1..], ss);
      assert (rs + ss)[1..] == rs[1..] + ss && (rs + ss)[0] == rs[0];
      Regroup(Frame(rs[0]), Frames(rs[1..]), Frames(ss));
    }
  }

  // ---- the statements the server sends to the database ----

  predicate IsDigit(c: char) { '0' <= c <= '9' }

  function Digit(c: char): nat
    requires IsDigit(c)
  {
    (c - '0') as nat
  }

  /** The number that the database reads in a text when it compares the text with
      an id; None when the text is not a string of digits. */
  function IdNumber(text: string): (r: Option<int>)
    ensures r.Some? ==> 0 <= r.value
  {
    if text == [] || !IsDigit(text[|text| - 1]) then None
    else
      var front, last := text[..|text| - 1], Digit(text[|text| - 1]);
      if front == [] then Some(last)
      else match IdNumber(front)
        case None => None
        case Some(n) => Some(10 * n + last)
  }

  /** The text that Integer.parseInt takes for a number. */
  function ParseInt(text: string): Option<int> {
    var signed := text != [] && text[0] in {'-', '+'};
    match IdNumber(if signed then text[1..] else text)
    case None => None
    case Some(n) =>
      var v := if signed && text[0] == '-' then -n else n;
      if -0x8000_0000 <= v < 0x8000_0000 then Some(v) else None
  }

  function NewViewId(db: Database): int {
    match db.viewIds case AutoIncrement(next) => next case DefaultId(id) => id
  }

  /** The insert into `view` that repeats a key: it fails after the insert into
      `billboard` has succeeded. A counter never repeats one. */
  predicate Refuses(db: Database, r: Request) {
    r.AddBillboard? && db.viewIds.DefaultId? && db.viewIds.id in Ids(db.view)
  }

  function InsertById(view: seq<View>, v: View): seq<View> {
    if view == [] || v.id < view[0].id then [v] + view
    else [view[0]] + InsertById(view[1..], v)
  }

  function NewView(db: Database, n: string, m: string, i: string, u: string): View {
    View(NewViewId(db), n, m, i, u, None, None, None)
  }

  function AddBillboardRow(db: Database, n: string, m: string, i: string, u: string): Database {
    var added := db.(billboard := db.billboard + [Billboard(db.nextBillboard, n, m, i, u)],
                     nextBillboard := db.nextBillboard + 1);
    match db.viewIds
    case AutoIncrement(next) =>
      added.(view := db.view + [NewView(db, n, m, i, u)], viewIds := AutoIncrement(next + 1))
    case DefaultId(id) =>
      if id in Ids(db.view) then added else added.(view := InsertById(db.view, NewView(db, n, m, i, u)))
  }

  function ScheduleViews(view: seq<View>, text: string, d: string, s: string, e: string): (r: seq<View>)
    ensures |r| == |view|
    ensures forall k :: 0 <= k < |view| ==>
              r[k] == view[k].(date := r[k].date, startTime := r[k].startTime, endTime := r[k].endTime)
  {
    if view == [] then []
    else
      var v := view[0];
      [if IdNumber(text) == Some(v.id) then v.(date := Some(d), startTime := Some(s), endTime := Some(e)) else v]
      + ScheduleViews(view[1..], text, d, s, e)
  }

  function DeleteViews(view: seq<View>, id: int): seq<View> {
    if view == [] then []
    else (if view[0].id == id then [] else [view[0]]) + DeleteViews(view[1..], id)
  }

  function EditBillboards(rows: seq<Billboard>, id: int, n: string, m: string, i: string, u: string)
    : (r: seq<Billboard>)
    ensures |r| == |rows|
    ensures forall k :: 0 <= k < |rows| ==>
              r[k] == if rows[k].id == id then Billboard(id, n, m, i, u) else rows[k]
  {
    if rows == [] then []
    else [if rows[0].id == id then Billboard(id, n, m, i, u) else rows[0]] + EditBillboards(rows[1..], id, n, m, i, u)
  }

  /** What a complete request does to the tables. */
  function Apply(db: Database, r: Request): Database {
    match r
    case AddBillboard(n, m, i, u) => AddBillboardRow(db, n, m, i, u)
    case AddView(t, d, s, e) => db.(view := ScheduleViews(db.view, t, d, s, e))
    case ShowTable => db
    case DeleteRow(id) => db.(view := DeleteViews(db.view, id))
    case EditTable(id, n, m, i, u) => db.(billboard := EditBillboards(db.billboard, id, n, m, i, u))
  }

  function ApplyAll(db: Database, rs: seq<Request>): Database
    decreases |rs|
  {
    if rs == [] then db else ApplyAll(Apply(db, rs[0]), rs[1..])
  }

  /** Every insert of a list of requests finds its key free. */
  predicate Accepted(db: Database, rs: seq<Request>)
    decreases |rs|
  {
    rs == [] || (!Refuses(db, rs[0]) && Accepted(Apply(db, rs[0]), rs[1..]))
  }

  // ---- the dispatch loop, one token at a time ----

  /** Where the server is: at readUTF, at readObject after a tag, ended by an
      exception main does not catch, or going round the loop on an EOFException
      that a readUTF in front of an object raises again and again. */
  datatype Phase = AwaitTag | AwaitObject(tag: string) | Crashed | Spinning

  datatype Server = Server(db: Database, phase: Phase, replies: seq<seq<View>>)

  /** The request that an object completes; None when the cast fails. */
  function Complete(tag: string, t: Token): Option<Request> {
    match t
    case AddObject(q1, q2, q3, q4) =>
      if tag == "addBillboard" then Some(AddBillboard(q1, q2, q3, q4))
      else if tag == "addView" then Some(AddView(q1, q2, q3, q4))
      else None
    case DeleteObject(id) => if tag == "delete" then Some(DeleteRow(id)) else None
    case EditObject(id, q1, q2, q3, q4) =>
      if tag == "editTable" then Some(EditTable(id, q1, q2, q3, q4)) else None
    case Tag(_) => None
  }

  function Consume(s: Server, t: Token): Server {
    match s.phase
    case AwaitTag =>
      (match t
       case Tag(name) =>
         if name == "showTable" then s.(replies := s.replies + [s.db.view])
         else if name in {"addBillboard", "addView", "delete", "editTable"} then s.(phase := AwaitObject(name))
         else s
       case _ => s.(phase := Spinning))
    case AwaitObject(tag) =>
      (match Complete(tag, t)
       case Some(r) => s.(db := Apply(s.db, r), phase := if Refuses(s.db, r) then Crashed else AwaitTag)
       case None => s.(phase := Crashed))
    case _ => s
  }

  function Drain(s: Server, ts: seq<Token>): Server
    decreases |ts|
  {
    if ts == [] then s else Drain(Consume(s, ts[0]), ts[1..])
  }

  lemma {:induction false} DrainAppend(s: Server, ts: seq<Token>, us: seq<Token>)
    ensures Drain(s, ts + us) == Drain(Drain(s, ts), us)
    decreases |ts|
  {
    if ts == [] {
      assert ts + us == us;
    } else {
      DrainAppend(Consume(s, ts[0]), ts[1..], us);
      assert (ts + us)[1..] == ts[1..] + us;
    }
  }

  function ShowRequests(rs: seq<Request>): nat {
    if rs == [] then 0 else (if rs[0].ShowTable? then 1 else 0) + ShowRequests(rs[1..])
  }

  lemma DrainFrame(s: Server, r: Request)
    requires s.phase == AwaitTag
    ensures Drain(s, Frame(r))
         == s.(db := Apply(s.db, r), phase := if Refuses(s.db, r) then Crashed else AwaitTag,
               replies := if r.ShowTable? then s.replies + [s.db.view] else s.replies)
  {
    var f := Frame(r);
    var s1 := Consume(s, f[0]);
    if r.ShowTable? {
      assert f[1..] == [];
    } else {
      assert f[1..] == [f[1]] && f[1..][1..] == [];
      assert Drain(s1, f[1..]) == Drain(Consume(s1, f[1]), []);
    }
  }

  /** A server that has failed stays as it is, whatever else arrives. */
  lemma {:induction false} FailedStays(s: Server, ts: seq<Token>)
    requires s.phase in {Crashed, Spinning}
    ensures Drain(s, ts) == s
  {
    if ts != [] { FailedStays(s, ts[1..]); }
  }

  /** Framing stays in step: a stream of complete requests is taken apart into
      exactly those requests, one tag and one object of the right class each, with
      one reply for each showTable, and the server is back at the next tag; unless
      an insert finds its key taken, and then the server has ended. */
  lemma {:induction false} DrainFrames(s: Server, rs: seq<Request>)
    requires s.phase == AwaitTag
    ensures var n := Drain(s, Frames(rs));
      if Accepted(s.db, rs)
      then n.phase == AwaitTag && n.db == ApplyAll(s.db, rs) && |n.replies| == |s.replies| + ShowRequests(rs)
      else n.phase == Crashed
    decreases |rs|
  {
    if rs != [] {
      var n := Drain(s, Frame(rs[0]));
      DrainFrame(s, rs[0]);
      DrainAppend(s, Frame(rs[0]), Frames(rs[1..]));
      if Refuses(s.db, rs[0]) {
        FailedStays(n, Frames(rs[1..]));
      } else {
        DrainFrames(n, rs[1..]);
      }
    }
  }

  /** An object where a tag should be: readUTF raises the same EOFException for
      ever, and nothing that follows is read. */
  lemma ObjectAtTagSpins(s: Server, t: Token, ts: seq<Token>)
    requires s.phase == AwaitTag && !t.Tag?
    ensures Drain(s, [t] + ts) == s.(phase := Spinning)
  {
    assert ([t] + ts)[1..] == ts;
    FailedStays(s.(phase := Spinning), ts);
  }

  // ---- keys stay in order ----

  ghost predicate Sorted(ids: seq<int>) {
    forall j, k :: 0 <= j < k < |ids| ==> ids[j] < ids[k]
  }

  ghost predicate Below(ids: seq<int>, bound: int) {
    forall k :: 0 <= k < |ids| ==> ids[k] < bound
  }

  function Ids(view: seq<View>): (ids: seq<int>)
    ensures |ids| == |view| && forall k :: 0 <= k < |view| ==> ids[k] == view[k].id
  {
    seq(|view|, k requires 0 <= k < |view| => view[k].id)
  }

  function BillboardIds(rows: seq<Billboard>): (ids: seq<int>)
    ensures |ids| == |rows| && forall k :: 0 <= k < |rows| ==> ids[k] == rows[k].id
  {
    seq(|rows|, k requires 0 <= k < |rows| => rows[k].id)
  }

  /** What the database sees to: primary keys, rows in key order, and counters
      above every key that they could repeat. */
  ghost predicate Ordered(db: Database) {
    && Sorted(Ids(db.view))
    && Sorted(BillboardIds(db.billboard))
    && Below(BillboardIds(db.billboard), db.nextBillboard)
    && (db.viewIds.AutoIncrement? ==> Below(Ids(db.view), db.viewIds.next))
  }

  /** The ids left when id is deleted. */
  function Without(ids: seq<int>, id: int): seq<int> {
    if ids == [] then []
    else (if ids[0] == id then [] else [ids[0]]) + Without(ids[1..], id)
  }

  lemma {:induction false} WithoutMembers(ids: seq<int>, id: int, x: int)
    ensures x in Without(ids, id) <==> x in ids && x != id
  {
    if ids != [] { WithoutMembers(ids[1..], id, x); }
  }

  lemma {:induction false} WithoutSorted(ids: seq<int>, id: int)
    requires Sorted(ids)
    ensures Sorted(Without(ids, id))
  {
    if ids != [] {
      var rest := ids[1..];
      WithoutSorted(rest, id);
      forall x | x in Without(rest, id) ensures x in rest { WithoutMembers(rest, id, x); }
      SortedFront(ids, Without(rest, id));
    }
  }

  lemma WithoutBelow(ids: seq<int>, id: int, bound: int)
    requires Below(ids, bound)
    ensures Below(Without(ids, id), bound)
  {
    forall x | x in Without(ids, id) ensures x < bound { WithoutMembers(ids, id, x); }
  }

  /** A column whose tail is thinned out still starts with its least id. */
  lemma SortedFront(ids: seq<int>, part: seq<int>)
    requires Sorted(ids) && ids != [] && Sorted(part)
    requires forall x :: x in part ==> x in ids[1..]
    ensures Sorted([ids[0]] + part)
  {
    forall k | 0 <= k < |part| ensures ids[0] < part[k] {
      assert part[k] in part && part[k] in ids[1..];
      var j :| 0 <= j < |ids[1..]| && ids[1..][j] == part[k];
      assert ids[0] < ids[j + 1];
    }
  }

  lemma {:induction false} DeletedIds(view: seq<View>, id: int)
    ensures Ids(DeleteViews(view, id)) == Without(Ids(view), id)
  {
    if view != [] {
      DeletedIds(view[1..], id);
      assert Ids(view)[1..] == Ids(view[1..]);
    }
  }

  lemma {:induction false} DeletedRows(view: seq<View>, id: int, v: View)
    ensures v in DeleteViews(view, id) <==> v in view && v.id != id
  {
    if view != [] { DeletedRows(view[1..], id, v); }
  }

  /** Row by row: the rows whose id the text names, and no others, get the date and
      the two times. */
  lemma {:induction false} ScheduledCells(view: seq<View>, text: string, d: string, s: string, e: string)
    ensures var after := ScheduleViews(view, text, d, s, e);
      && |after| == |view|
      && forall k :: 0 <= k < |view| ==>
           after[k] == (if IdNumber(text) == Some(view[k].id)
                        then view[k].(date := Some(d), startTime := Some(s), endTime := Some(e)) else view[k])
  {
    if view != [] {
      ScheduledCells(view[1..], text, d, s, e);
      var rest := ScheduleViews(view[1..], text, d, s, e);
      assert ScheduleViews(view, text, d, s, e)[1..] == rest;
      forall k | 0 < k < |view|
        ensures ScheduleViews(view, text, d, s, e)[k] == rest[k - 1] && view[k] == view[1..][k - 1]
      {}
    }
  }

  lemma {:induction false} InsertedMembers(view: seq<View>, v: View, w: View)
    ensures w in InsertById(view, v) <==> w == v || w in view
  {
    if view != [] && v.id >= view[0].id {
      InsertedMembers(view[1..], v, w);
      assert view == [view[0]] + view[1..];
    }
  }

  /** An id is in the column exactly when a row carries it. */
  lemma IdOfRow(view: seq<View>, id: int)
    ensures id in Ids(view) <==> exists w :: w in view && w.id == id
  {
    if id in Ids(view) {
      var k :| 0 <= k < |view| && Ids(view)[k] == id;
      assert view[k] in view;
    }
    forall w | w in view && w.id == id ensures id in Ids(view) {
      var k :| 0 <= k < |view| && view[k] == w;
      assert Ids(view)[k] == id;
    }
  }

  /** The column after InsertById. */
  function InsertId(ids: seq<int>, id: int): seq<int> {
    if ids == [] || id < ids[0] then [id] + ids else [ids[0]] + InsertId(ids[1..], id)
  }

  lemma {:induction false} InsertedIds(view: seq<View>, v: View)
    ensures Ids(InsertById(view, v)) == InsertId(Ids(view), v.id)
  {
    if view == [] || v.id < view[0].id {
      assert Ids([v] + view) == [v.id] + Ids(view);
    } else {
      InsertedIds(view[1..], v);
      assert Ids(view)[1..] == Ids(view[1..]);
      assert Ids([view[0]] + InsertById(view[1..], v)) == [view[0].id] + Ids(InsertById(view[1..], v));
    }
  }

  lemma {:induction false} InsertIdMembers(ids: seq<int>, id: int, x: int)
    ensures x in InsertId(ids, id) <==> x == id || x in ids
  {
    if ids != [] && ids[0] <= id {
      InsertIdMembers(ids[1..], id, x);
      assert ids == [ids[0]] + ids[1..];
    }
  }

  lemma {:induction false} InsertIdSorted(ids: seq<int>, id: int)
    requires Sorted(ids) && id !in ids
    ensures Sorted(InsertId(ids, id))
  {
    if ids != [] && ids[0] <= id {
      var after := InsertId(ids[1..], id);
      InsertIdSorted(ids[1..], id);
      forall k | 0 <= k < |after| ensures ids[0] < after[k] {
        InsertIdMembers(ids[1..], id, after[k]);
        if after[k] != id {
          var j :| 0 <= j < |ids[1..]| && ids[1..][j] == after[k];
          assert ids[0] < ids[j + 1];
        }
      }
    }
  }

  lemma ApplyKeepsOrdered(db: Database, r: Request)
    requires Ordered(db)
    ensures Ordered(Apply(db, r))
  {
    var n := Apply(db, r);
    match r {
      case AddBillboard(name, m, i, u) =>
        assert BillboardIds(n.billboard) == BillboardIds(db.billboard) + [db.nextBillboard];
        if db.viewIds.AutoIncrement? {
          assert Ids(n.view) == Ids(db.view) + [db.viewIds.next];
        } else if db.viewIds.id !in Ids(db.view) {
          InsertedIds(db.view, NewView(db, name, m, i, u));
          InsertIdSorted(Ids(db.view), db.viewIds.id);
        }
      case DeleteRow(id) =>
        DeletedIds(db.view, id);
        WithoutSorted(Ids(db.view), id);
        if db.viewIds.AutoIncrement? { WithoutBelow(Ids(db.view), id, db.viewIds.next); }
      case AddView(_, _, _, _) => assert Ids(n.view) == Ids(db.view);
      case EditTable(_, _, _, _, _) => assert BillboardIds(n.billboard) == BillboardIds(db.billboard);
      case ShowTable =>
    }
  }

  /** For every stream of tokens, well framed or not, and either way of numbering:
      ids stay unique and in order, and counters stay above them. */
  lemma {:induction false} KeysStayInOrder(s: Server, ts: seq<Token>)
    requires Ordered(s.db)
    ensures Ordered(Drain(s, ts).db)
    decreases |ts|
  {
    if ts != [] {
      if s.phase.AwaitObject? && Complete(s.phase.tag, ts[0]).Some? {
        ApplyKeepsOrdered(s.db, Complete(s.phase.tag, ts[0]).value);
      }
      KeysStayInOrder(Consume(s, ts[0]), ts[1..]);
    }
  }

  // ---- the two tables stay paired ----

  predicate SameCells(b: Billboard, v: View) {
    b.id == v.id && b.name == v.name && b.message == v.message && b.info == v.info && b.url == v.url
  }

  /** The billboard row with the id of v; it shows the same cells unless that id
      is among the edited ones. */
  ghost predicate HasPartner(db: Database, v: View, edited: set<int>) {
    exists k :: 0 <= k < |db.billboard| && db.billboard[k].id == v.id
                && (v.id !in edited ==> SameCells(db.billboard[k], v))
  }

  ghost predicate Paired(db: Database, edited: set<int>) {
    && Ordered(db)
    && forall k :: 0 <= k < |db.view| ==> HasPartner(db, db.view[k], edited)
  }

  /** Both tables count, and in step. */
  predicate CountInStep(db: Database) {
    db.viewIds == AutoIncrement(db.nextBillboard)
  }

  function EditedBy(r: Request): set<int> {
    if r.EditTable? then {r.id} else {}
  }

  lemma PartnerKept(db: Database, r: Request, v: View, w: View, edited: set<int>)
    requires HasPartner(db, v, edited)
    requires w == v.(date := w.date, startTime := w.startTime, endTime := w.endTime)
    ensures HasPartner(Apply(db, r), w, edited + EditedBy(r))
  {
    var k :| 0 <= k < |db.billboard| && db.billboard[k].id == v.id
             && (v.id !in edited ==> SameCells(db.billboard[k], v));
    var after := Apply(db, r).billboard;
    assert k < |after| && after[k].id == w.id;
    if r.EditTable? && w.id == r.id { assert w.id in EditedBy(r); }
  }

  lemma PartnersKept(db: Database, r: Request, edited: set<int>)
    requires forall k :: 0 <= k < |db.view| ==> HasPartner(db, db.view[k], edited)
    requires !r.AddBillboard?
    ensures var n := Apply(db, r);
      forall k :: 0 <= k < |n.view| ==> HasPartner(n, n.view[k], edited + EditedBy(r))
  {
    var n := Apply(db, r);
    forall k | 0 <= k < |n.view| ensures HasPartner(n, n.view[k], edited + EditedBy(r)) {
      if r.DeleteRow? {
        DeletedRows(db.view, r.id, n.view[k]);
        PartnerKept(db, r, n.view[k], n.view[k], edited);
      } else {
        PartnerKept(db, r, db.view[k], n.view[k], edited);
      }
    }
  }

  /** What an insert has to find for its new `view` row to have a partner: the key
      is refused, or is the one that `billboard` hands out, or belongs to a
      `billboard` row that fits already. */
  ghost predicate AddFindsPartner(db: Database, r: Request, edited: set<int>)
    requires r.AddBillboard?
  {
    || Refuses(db, r)
    || NewViewId(db) == db.nextBillboard
    || HasPartner(db, NewView(db, r.name, r.message, r.info, r.url), edited)
  }

  lemma AddedRows(db: Database, r: Request, w: View)
    requires r.AddBillboard?
    ensures w in Apply(db, r).view
       <==> w in db.view || (!Refuses(db, r) && w == NewView(db, r.name, r.message, r.info, r.url))
  {
    if db.viewIds.DefaultId? { InsertedMembers(db.view, NewView(db, r.name, r.message, r.info, r.url), w); }
  }

  /** With either way of numbering, an insert keeps the tables paired if and only
      if it finds a partner. */
  lemma AddKeepsPairedIff(db: Database, r: Request, edited: set<int>)
    requires Paired(db, edited) && r.AddBillboard?
    ensures Paired(Apply(db, r), edited) <==> AddFindsPartner(db, r, edited)
  {
    var n, row := Apply(db, r), NewView(db, r.name, r.message, r.info, r.url);
    ApplyKeepsOrdered(db, r);
    NewPartner(db, r, edited);
    forall w | w in db.view ensures HasPartner(n, w, edited) {
      var k :| 0 <= k < |db.view| && db.view[k] == w;
      PartnerKept(db, r, db.view[k], w, edited);
      assert edited + EditedBy(r) == edited;
    }
    AddedRows(db, r, row);
    forall k | 0 <= k < |n.view| ensures n.view[k] in db.view || n.view[k] == row {
      AddedRows(db, r, n.view[k]);
    }
  }

  lemma NewPartner(db: Database, r: Request, edited: set<int>)
    requires r.AddBillboard?
    ensures var row := NewView(db, r.name, r.message, r.info, r.url);
      HasPartner(Apply(db, r), row, edited) <==> row.id == db.nextBillboard || HasPartner(db, row, edited)
  {
    var row, n := NewView(db, r.name, r.message, r.info, r.url), Apply(db, r);
    if row.id == db.nextBillboard {
      assert SameCells(n.billboard[|db.billboard|], row);
    }
    if HasPartner(db, row, edited) {
      PartnerKept(db, r, row, row, edited);
      assert edited + EditedBy(r) == edited;
    }
  }

  /** One request with either way of numbering. */
  lemma ApplyKeepsPairedIff(db: Database, r: Request, edited: set<int>)
    requires Paired(db, edited)
    ensures Paired(Apply(db, r), edited + EditedBy(r))
       <==> (r.AddBillboard? ==> AddFindsPartner(db, r, edited))
  {
    if r.AddBillboard? {
      AddKeepsPairedIff(db, r, edited);
      assert edited + EditedBy(r) == edited;
    } else {
      ApplyKeepsOrdered(db, r);
      PartnersKept(db, r, edited);
    }
  }

  function EditedIn(ts: seq<Token>): set<int> {
    if ts == [] then {}
    else (if ts[0].EditObject? then {ts[0].id} else {}) + EditedIn(ts[1..])
  }

  /** The inserts that a stream completes find their partners. */
  ghost predicate AddsFindPartners(s: Server, ts: seq<Token>, edited: set<int>)
    decreases |ts|
  {
    ts == []
    || ((s.phase.AwaitObject? && Complete(s.phase.tag, ts[0]).Some? ==>
           var r := Complete(s.phase.tag, ts[0]).value;
           r.AddBillboard? ==> AddFindsPartner(s.db, r, edited))
        && AddsFindPartners(Consume(s, ts[0]), ts[1..], edited + EditedIn(ts[..1])))
  }

  lemma ConsumeKeepsPairedIff(s: Server, t: Token, edited: set<int>)
    requires Paired(s.db, edited)
    ensures Paired(Consume(s, t).db, edited + EditedIn([t]))
       <==> (s.phase.AwaitObject? && Complete(s.phase.tag, t).Some? ==>
               var r := Complete(s.phase.tag, t).value;
               r.AddBillboard? ==> AddFindsPartner(s.db, r, edited))
  {
    assert EditedIn([t]) == (if t.EditObject? then {t.id} else {}) + EditedIn([]);
    if s.phase.AwaitObject? && Complete(s.phase.tag, t).Some? {
      var r := Complete(s.phase.tag, t).value;
      ApplyKeepsPairedIff(s.db, r, edited);
      assert EditedBy(r) == EditedIn([t]);
    } else {
      MoreEdited(s.db, edited, edited + EditedIn([t]));
    }
  }

  /** For every stream of tokens and either way of numbering: the tables are paired
      at every moment if and only if every insert finds its partner. */
  lemma {:induction false} PairedThroughoutIff(s: Server, ts: seq<Token>, edited: set<int>)
    requires Paired(s.db, edited)
    ensures (forall k :: 0 <= k <= |ts| ==> Paired(Drain(s, ts[..k]).db, edited + EditedIn(ts[..k])))
       <==> AddsFindPartners(s, ts, edited)
    decreases |ts|
  {
    if ts == [] {
      assert edited + {} == edited;
    } else {
      var n, now, rest := Consume(s, ts[0]), edited + EditedIn([ts[0]]), ts[1..];
      assert ts[..1] == [ts[0]];
      ConsumeKeepsPairedIff(s, ts[0], edited);
      forall k | 0 < k <= |ts|
        ensures Drain(s, ts[..k]) == Drain(n, rest[..k - 1])
        ensures edited + EditedIn(ts[..k]) == now + EditedIn(rest[..k - 1])
      {
        assert ts[..k][1..] == rest[..k - 1] && ts[..k][0] == ts[0];
        assert EditedIn([ts[0]]) == (if ts[0].EditObject? then {ts[0].id} else {}) + EditedIn([]);
      }
      assert Drain(s, ts[..0]) == s && edited + EditedIn(ts[..0]) == edited;
      assert Drain(n, rest[..0]) == n && now + EditedIn(rest[..0]) == now;
      if Paired(n.db, now) {
        PairedThroughoutIff(n, rest, now);
        if forall k :: 0 <= k <= |ts| ==> Paired(Drain(s, ts[..k]).db, edited + EditedIn(ts[..k])) {
          forall j | 0 <= j <= |rest| ensures Paired(Drain(n, rest[..j]).db, now + EditedIn(rest[..j])) {
            assert Paired(Drain(s, ts[..j + 1]).db, edited + EditedIn(ts[..j + 1]));
          }
        }
        if AddsFindPartners(s, ts, edited) {
          forall k | 0 <= k <= |ts| ensures Paired(Drain(s, ts[..k]).db, edited + EditedIn(ts[..k])) {
            if k > 0 { assert Paired(Drain(n, rest[..k - 1]).db, now + EditedIn(rest[..k - 1])); }
          }
        }
      } else {
        assert !Paired(Drain(s, ts[..1]).db, edited + EditedIn(ts[..1]));
      }
    }
  }

  /** Where both tables count in step, every insert finds its partner: for every
      stream of tokens the counters stay equal, every view row has its billboard
      row, and the two show the same cells unless the id was edited. */
  lemma {:induction false} TablesStayPaired(s: Server, ts: seq<Token>, edited: set<int>)
    requires Paired(s.db, edited) && CountInStep(s.db)
    ensures Paired(Drain(s, ts).db, edited + EditedIn(ts)) && CountInStep(Drain(s, ts).db)
    decreases |ts|
  {
    if ts == [] {
      assert edited + {} == edited;
    } else {
      ConsumeKeepsPairedIff(s, ts[0], edited);
      TablesStayPaired(Consume(s, ts[0]), ts[1..], edited + EditedIn([ts[0]]));
      assert EditedIn([ts[0]]) == (if ts[0].EditObject? then {ts[0].id} else {}) + EditedIn([]);
      assert edited + EditedIn(ts) == (edited + EditedIn([ts[0]])) + EditedIn(ts[1..]);
    }
  }

  lemma MoreEdited(db: Database, edited: set<int>, more: set<int>)
    requires Paired(db, edited) && edited <= more
    ensures Paired(db, more)
  {
    forall k | 0 <= k < |db.view| ensures HasPartner(db, db.view[k], more) {
      assert HasPartner(db, db.view[k], edited);
    }
  }
}
