/** clientGUI.java as a state machine: what each handler does to the client's own
    table and to the outgoing stream. */
module ClientModel {
  import opened Wrappers
  import opened Protocol

  /** The columns of table2 other than the id. */
  datatype Column = NameColumn | MessageColumn | InfoColumn | UrlColumn | DateColumn | StartColumn | EndColumn

  /** What a cell holds; None is null. */
  function CellText(v: View, column: Column): Option<string> {
    match column
    case NameColumn => Some(v.name)
    case MessageColumn => Some(v.message)
    case InfoColumn => Some(v.info)
    case UrlColumn => Some(v.url)
    case DateColumn => v.date
    case StartColumn => v.startTime
    case EndColumn => v.endTime
  }

  function WithText(v: View, column: Column, text: string): View {
    match column
    case NameColumn => v.(name := text)
    case MessageColumn => v.(message := text)
    case InfoColumn => v.(info := text)
    case UrlColumn => v.(url := text)
    case DateColumn => v.(date := Some(text))
    case StartColumn => v.(startTime := Some(text))
    case EndColumn => v.(endTime := Some(text))
  }

  /** rows is the model behind table2; first is the column that its header shows
      first, None while that is the id; editId is the number in the EditBbID box,
      None when Integer.valueOf would reject its text. */
  datatype Client = Client(
    rows: seq<View>,
    first: Option<Column>,
    billboardID: Option<int>,
    selectedRow: int,
    rowToEdit: int,
    editId: Option<int>,
    editIdEditable: bool,
    sent: seq<Token>)
  {
    predicate HasRow(row: int) { 0 <= row < |rows| }

    /** What Integer.parseInt makes of the first displayed cell of a row. */
    function ShownNumber(row: int): Option<int>
      requires HasRow(row)
    {
      match first
      case None => Some(rows[row].id)
      case Some(column) =>
        match CellText(rows[row], column)
        case None => None
        case Some(text) => ParseInt(text)
    }
  }

  /** What the user can do. Select carries getSelectedRow, which is -1 when a
      change of selection leaves nothing selected. The text boxes other than
      EditBbID are read only when a button is pressed, so their text comes with
      the click. TypeCell is an id typed straight into the table, TypeText a text
      typed into another column; DragHeader puts another column first. */
  datatype Event =
    | Select(row: int)
    | DeleteClick
    | EditClick
    | TypeId(number: Option<int>)
    | UpdateClick(name: string, message: string, info: string, url: string)
    | SubmitClick(name: string, message: string, info: string, url: string)
    | ScheduleClick(idText: string, date: string, startTime: string, endTime: string)
    | TypeCell(row: int, id: int)
    | TypeText(row: int, column: Column, text: string)
    | DragHeader(first: Option<Column>)

  function WithoutRow(rows: seq<View>, row: int): seq<View>
    requires 0 <= row < |rows|
  {
    rows[..row] + rows[row + 1..]
  }

  /** A handler that ends in an exception keeps what it did before it. */
  function Step(c: Client, e: Event): Client {
    match e
    case Select(row) =>
      if c.HasRow(row) && c.ShownNumber(row).Some? then c.(billboardID := c.ShownNumber(row), selectedRow := row)
      else c
    case DeleteClick =>
      if c.billboardID.None? then c.(sent := c.sent + [Tag("delete")])
      else c.(sent := c.sent + Frame(DeleteRow(c.billboardID.value)),
              rows := if c.HasRow(c.selectedRow) then WithoutRow(c.rows, c.selectedRow) else c.rows)
    case EditClick =>
      if c.HasRow(c.selectedRow)
      then c.(editId := Some(c.rows[c.selectedRow].id), editIdEditable := false, rowToEdit := c.selectedRow)
      else c
    case TypeId(number) =>
      if c.editIdEditable then c.(editId := number) else c
    case UpdateClick(n, m, i, u) =>
      if c.editId.None? then c
      else
        var asked := c.(sent := c.sent + Frame(EditTable(c.editId.value, n, m, i, u)));
        if !c.HasRow(c.rowToEdit) then asked
        else asked.(
          rows := c.rows[c.rowToEdit :=
            c.rows[c.rowToEdit].(id := c.editId.value, name := n, message := m, info := i, url := u)],
          rowToEdit := -1, editId := None)
    case SubmitClick(n, m, i, u) => c.(sent := c.sent + Frame(AddBillboard(n, m, i, u)))
    case ScheduleClick(t, d, s, e) => c.(sent := c.sent + Frame(AddView(t, d, s, e)))
    case TypeCell(row, id) =>
      if c.HasRow(row) then c.(rows := c.rows[row := c.rows[row].(id := id)]) else c
    case TypeText(row, column, text) =>
      if c.HasRow(row) then c.(rows := c.rows[row := WithText(c.rows[row], column, text)]) else c
    case DragHeader(first) => c.(first := first)
  }

  function Run(c: Client, es: seq<Event>): Client {
    if es == [] then c else Step(Run(c, es[..|es| - 1]), es[|es| - 1])
  }

  /** A click on Delete before any row was ever selected: the tag goes out, then
      unboxing the null id throws. */
  predicate NullDelete(c: Client, e: Event) {
    e.DeleteClick? && c.billboardID.None?
  }

  /** The complete request an event sends, if any. */
  function RequestOf(c: Client, e: Event): Option<Request> {
    match e
    case DeleteClick => if c.billboardID.None? then None else Some(DeleteRow(c.billboardID.value))
    case UpdateClick(n, m, i, u) => if c.editId.None? then None else Some(EditTable(c.editId.value, n, m, i, u))
    case SubmitClick(n, m, i, u) => Some(AddBillboard(n, m, i, u))
    case ScheduleClick(t, d, s, e) => Some(AddView(t, d, s, e))
    case _ => None
  }

  function TokensOf(c: Client, e: Event): seq<Token> {
    if NullDelete(c, e) then [Tag("delete")]
    else if RequestOf(c, e).Some? then Frame(RequestOf(c, e).value)
    else []
  }

  lemma StepSends(c: Client, e: Event)
    ensures Step(c, e).sent == c.sent + TokensOf(c, e)
  {}

  /** Each column is one field, in the order of the table. */
  lemma ColumnsAreFields(v: View)
    ensures [CellText(v, NameColumn), CellText(v, MessageColumn), CellText(v, InfoColumn), CellText(v, UrlColumn)]
         == [Some(v.name), Some(v.message), Some(v.info), Some(v.url)]
    ensures [CellText(v, DateColumn), CellText(v, StartColumn), CellText(v, EndColumn)]
         == [v.date, v.startTime, v.endTime]
  {}

  /** Typing into a column sets its cell and no other, and not the id. */
  lemma TypedColumn(v: View, column: Column, text: string, other: Column)
    ensures CellText(WithText(v, column, text), other) == if other == column then Some(text) else CellText(v, other)
    ensures WithText(v, column, text).id == v.id
  {}

  // ---- the Edit form over runs ----

  /** A handler that puts an id into the form. */
  predicate FillsForm(c: Client, e: Event) {
    match e
    case EditClick => c.HasRow(c.selectedRow)
    case TypeId(number) => c.editIdEditable && number.Some?
    case _ => false
  }

  predicate NothingFills(c: Client, es: seq<Event>) {
    es == []
    || (NothingFills(c, es[..|es| - 1]) && !FillsForm(Run(c, es[..|es| - 1]), es[|es| - 1]))
  }

  lemma {:induction false} FormStaysEmpty(c: Client, es: seq<Event>)
    requires c.editId.None? && NothingFills(c, es)
    ensures Run(c, es).editId.None?
  {
    if es != [] { FormStaysEmpty(c, es[..|es| - 1]); }
  }

  /** One press of Update is one edit: after an Update that found its row, in every
      run, no further Update sends anything or changes any field until an id has
      been put into the form again. */
  lemma UpdateEmptiesForm(c: Client, n: string, m: string, i: string, u: string, es: seq<Event>,
                          n': string, m': string, i': string, u': string)
    requires c.editId.Some? && c.HasRow(c.rowToEdit)
    requires NothingFills(Step(c, UpdateClick(n, m, i, u)), es)
    ensures var d, again := Run(Step(c, UpdateClick(n, m, i, u)), es), UpdateClick(n', m', i', u');
      Step(d, again) == d && TokensOf(d, again) == []
  {
    FormStaysEmpty(Step(c, UpdateClick(n, m, i, u)), es);
  }

  /** Edit ties the form to the selected row: whatever the user does then, short of
      pressing Edit or Update, the form holds the id of that row and cannot be
      typed over, so that the next Update asks for an edit of that id. */
  lemma {:induction false} EditLocksForm(c: Client, es: seq<Event>, n: string, m: string, i: string, u: string)
    requires c.HasRow(c.selectedRow) && forall e :: e in es ==> !e.EditClick? && !e.UpdateClick?
    ensures var d, id := Run(Step(c, EditClick), es), c.rows[c.selectedRow].id;
      && d.editId == Some(id) && !d.editIdEditable && d.rowToEdit == c.selectedRow
      && TokensOf(d, UpdateClick(n, m, i, u)) == [Tag("editTable"), EditObject(id, n, m, i, u)]
  {
    if es != [] { EditLocksForm(c, es[..|es| - 1], n, m, i, u); }
  }

  /** Once locked, the id box stays locked in every run. */
  lemma {:induction false} LockedForGood(c: Client, es: seq<Event>)
    requires !c.editIdEditable
    ensures !Run(c, es).editIdEditable
  {
    if es != [] { LockedForGood(c, es[..|es| - 1]); }
  }

  // ---- the connection ----

  function Start(db: Database): Server {
    Server(db, AwaitTag, [])
  }

  /** The constructor's handshake: showTable goes out, and the reply fills the table. */
  function Connected(db: Database): Client {
    DrainFrame(Start(db), ShowTable);
    var reply := Drain(Start(db), Frame(ShowTable)).replies[0];
    Client(reply, None, None, 0, 0, None, true, Frame(ShowTable))
  }

  /** The server once it has read everything sent so far. */
  function Final(db: Database, c: Client): Server {
    Drain(Start(db), c.sent)
  }

  lemma FinalStep(db: Database, c: Client, e: Event)
    ensures Final(db, Step(c, e)) == Drain(Final(db, c), TokensOf(c, e))
  {
    StepSends(c, e);
    DrainAppend(Start(db), c.sent, TokensOf(c, e));
  }

  lemma ConnectedFinal(db: Database)
    ensures Final(db, Connected(db)) == Server(db, AwaitTag, [db.view])
    ensures Connected(db).rows == db.view
  {
    DrainFrame(Start(db), ShowTable);
  }

  // ---- framing, for every sequence of handler invocations ----

  predicate NoNullDelete(c: Client, es: seq<Event>) {
    es == []
    || (NoNullDelete(c, es[..|es| - 1]) && !NullDelete(Run(c, es[..|es| - 1]), es[|es| - 1]))
  }

  /** Something was sent after a null delete. */
  predicate SentAfterNull(c: Client, es: seq<Event>) {
    es != []
    && var front := es[..|es| - 1];
       SentAfterNull(c, front)
       || (!NoNullDelete(c, front) && TokensOf(Run(c, front), es[|es| - 1]) != [])
  }

  /** A Submit that comes to a `view` table in which the id it will get is taken. */
  predicate RefusedSubmit(db: Database, c: Client, e: Event) {
    RequestOf(c, e).Some? && Refuses(Final(db, c).db, RequestOf(c, e).value)
  }

  /** No null delete and no refused Submit so far. */
  predicate WellServed(db: Database, es: seq<Event>) {
    es == []
    || var front, e := es[..|es| - 1], es[|es| - 1];
       var c := Run(Connected(db), front);
       WellServed(db, front) && !NullDelete(c, e) && !RefusedSubmit(db, c, e)
  }

  /** A refused Submit, or anything sent after a null delete. */
  predicate ServerEnded(db: Database, es: seq<Event>) {
    es != []
    && var front, e := es[..|es| - 1], es[|es| - 1];
       var c := Run(Connected(db), front);
       ServerEnded(db, front)
       || (if WellServed(db, front) then RefusedSubmit(db, c, e) else TokensOf(c, e) != [])
  }

  /** A server waiting for the object of a delete cannot take anything that starts
      with a tag. */
  lemma TagBreaksObject(s: Server, ts: seq<Token>)
    requires s.phase.AwaitObject? && ts != [] && ts[0].Tag?
    ensures Drain(s, ts) == s.(phase := Crashed)
  {
    FailedStays(s.(phase := Crashed), ts[1..]);
  }

  lemma StartsWithTag(c: Client, e: Event)
    ensures TokensOf(c, e) != [] ==> TokensOf(c, e)[0].Tag?
  {}

  /** The server ends at a tag boundary if and only if Delete was never clicked
      before a selection and no Submit was refused; it has ended if and only if a
      Submit was refused or something was sent after such a click; otherwise it
      waits for the missing object. It never spins, and the one reply it sends is
      that of the handshake. */
  lemma {:induction false} FramingOfRuns(db: Database, es: seq<Event>)
    ensures var f := Final(db, Run(Connected(db), es));
      && (f.phase == AwaitTag <==> WellServed(db, es))
      && (f.phase == Crashed <==> ServerEnded(db, es))
      && f.phase in {AwaitTag, Crashed, AwaitObject("delete")}
      && f.replies == [db.view]
  {
    if es == [] {
      ConnectedFinal(db);
    } else {
      var front, e := es[..|es| - 1], es[|es| - 1];
      FramingOfRuns(db, front);
      FramingStep(db, Run(Connected(db), front), e);
    }
  }

  /** One handler, from a server at a tag boundary, waiting, or ended. */
  lemma FramingStep(db: Database, c: Client, e: Event)
    requires Final(db, c).phase in {AwaitTag, Crashed, AwaitObject("delete")}
    ensures var f, n := Final(db, c), Final(db, Step(c, e));
      && (n.phase == AwaitTag <==> f.phase == AwaitTag && !NullDelete(c, e) && !RefusedSubmit(db, c, e))
      && (n.phase == Crashed <==> f.phase == Crashed || (if f.phase == AwaitTag then RefusedSubmit(db, c, e)
                                                         else TokensOf(c, e) != []))
      && n.phase in {AwaitTag, Crashed, AwaitObject("delete")}
      && n.replies == f.replies
  {
    var f, ts := Final(db, c), TokensOf(c, e);
    FinalStep(db, c, e);
    StartsWithTag(c, e);
    if f.phase == Crashed {
      FailedStays(f, ts);
    } else if ts != [] {
      if f.phase.AwaitObject? {
        TagBreaksObject(f, ts);
      } else if NullDelete(c, e) {
        assert Drain(f, ts) == Drain(Consume(f, ts[0]), []);
      } else {
        DrainFrame(f, RequestOf(c, e).value);
      }
    }
  }

  /** Where `view` counts its ids, no Submit is refused, and the framing is the
      user's own doing. */
  lemma {:induction false} CountedFraming(db: Database, es: seq<Event>)
    requires db.viewIds.AutoIncrement?
    ensures WellServed(db, es) <==> NoNullDelete(Connected(db), es)
    ensures ServerEnded(db, es) <==> SentAfterNull(Connected(db), es)
  {
    if es != [] {
      var front := es[..|es| - 1];
      CountedFraming(db, front);
      NumberingStays(db, Run(Connected(db), front));
    }
  }

  /** The way of numbering does not change. */
  lemma NumberingStays(db: Database, c: Client)
    ensures match db.viewIds
            case AutoIncrement(next) =>
              var f := Final(db, c).db.viewIds; f.AutoIncrement? && next <= f.next
            case DefaultId(_) => Final(db, c).db.viewIds == db.viewIds
  {
    DrainNumbering(Start(db), c.sent);
  }

  lemma {:induction false} DrainNumbering(s: Server, ts: seq<Token>)
    ensures match s.db.viewIds
            case AutoIncrement(next) =>
              var f := Drain(s, ts).db.viewIds; f.AutoIncrement? && next <= f.next
            case DefaultId(_) => Drain(s, ts).db.viewIds == s.db.viewIds
    decreases |ts|
  {
    if ts != [] { DrainNumbering(Consume(s, ts[0]), ts[1..]); }
  }

  /** The complete requests of a run, in order. */
  function RequestsOf(c: Client, es: seq<Event>): seq<Request> {
    if es == [] then []
    else
      var r := RequestOf(Run(c, es[..|es| - 1]), es[|es| - 1]);
      RequestsOf(c, es[..|es| - 1]) + (if r.Some? then [r.value] else [])
  }

  lemma {:induction false} CleanRunSendsFrames(db: Database, es: seq<Event>)
    requires NoNullDelete(Connected(db), es)
    ensures Run(Connected(db), es).sent == Frames([ShowTable] + RequestsOf(Connected(db), es))
  {
    var c0 := Connected(db);
    if es == [] {
      assert Frames([ShowTable]) == Frame(ShowTable) + Frames([]);
    } else {
      var front, e := es[..|es| - 1], es[|es| - 1];
      var c, rs := Run(c0, front), [ShowTable] + RequestsOf(c0, front);
      CleanRunSendsFrames(db, front);
      StepSends(c, e);
      var r := RequestOf(c, e);
      if r.Some? {
        FramesAppend(rs, [r.value]);
        assert Frames([r.value]) == Frame(r.value) + Frames([]);
        assert rs + [r.value] == [ShowTable] + RequestsOf(c0, es);
      } else {
        assert RequestsOf(c0, es) == RequestsOf(c0, front);
      }
    }
  }

  /** In the user's own terms: the framing holds if and only if no Delete came
      before a selection and every insert among the requests found its key free
      (TableHistory.AcceptedIff says when it does). Then the server, having read
      everything, has carried out the requests in the order in which they were
      made, and nothing else. */
  lemma CleanRunIsCarriedOut(db: Database, es: seq<Event>)
    ensures var rs := RequestsOf(Connected(db), es);
      && (WellServed(db, es) <==> NoNullDelete(Connected(db), es) && Accepted(db, rs))
      && (WellServed(db, es) ==> Final(db, Run(Connected(db), es)).db == ApplyAll(db, rs))
  {
    var rs := RequestsOf(Connected(db), es);
    FramingOfRuns(db, es);
    if WellServed(db, es) { ServedIsClean(db, es); }
    if NoNullDelete(Connected(db), es) {
      CleanRunSendsFrames(db, es);
      DrainFrames(Start(db), [ShowTable] + rs);
      assert ([ShowTable] + rs)[1..] == rs;
    }
  }

  lemma {:induction false} ServedIsClean(db: Database, es: seq<Event>)
    requires WellServed(db, es)
    ensures NoNullDelete(Connected(db), es)
  {
    if es != [] { ServedIsClean(db, es[..|es| - 1]); }
  }

  /** Delete clicked with nothing selected, then Submit: the server ends with an
      exception and the submitted billboard is lost. */
  lemma NullDeleteCrashesServer(db: Database, n: string, m: string, i: string, u: string)
    ensures Final(db, Run(Connected(db), [DeleteClick, SubmitClick(n, m, i, u)])).phase == Crashed
    ensures Final(db, Run(Connected(db), [DeleteClick, SubmitClick(n, m, i, u)])).db == db
  {
    var c0, s := Connected(db), SubmitClick(n, m, i, u);
    var es := [DeleteClick, s];
    assert es[..1] == [DeleteClick] && [DeleteClick][..0] == [];
    var c1 := Step(c0, DeleteClick);
    assert Run(c0, []) == c0 && Run(c0, [DeleteClick]) == c1;
    ConnectedFinal(db);
    FinalStep(db, c0, DeleteClick);
    assert TokensOf(c0, DeleteClick) == [Tag("delete")];
    var f0 := Final(db, c0);
    assert Drain(f0, [Tag("delete")]) == Drain(Consume(f0, Tag("delete")), []);
    FinalStep(db, c1, s);
    TagBreaksObject(Final(db, c1), TokensOf(c1, s));
  }

  /** A Submit on tables in which the default id is taken, as the first thing the
      user does: `billboard` gets the new row, `view` refuses it, and the server
      ends. */
  lemma RepeatedDefaultEndsServer(db: Database, n: string, m: string, i: string, u: string)
    requires db.viewIds.DefaultId? && db.viewIds.id in Ids(db.view)
    ensures var f := Final(db, Run(Connected(db), [SubmitClick(n, m, i, u)]));
      f.phase == Crashed && f.db == db.(billboard := db.billboard + [Billboard(db.nextBillboard, n, m, i, u)],
                                        nextBillboard := db.nextBillboard + 1)
  {
    var c0, e := Connected(db), SubmitClick(n, m, i, u);
    assert [e][..0] == [];
    assert Run(c0, [e]) == Step(Run(c0, []), e);
    ConnectedFinal(db);
    FinalStep(db, c0, e);
    DrainFrame(Final(db, c0), AddBillboard(n, m, i, u));
  }

  // ---- every interleaving of client and server ----

  /** Server steps read one token; a read with nothing to read waits. */
  datatype Action = User(e: Event) | ServerReads

  datatype System = System(client: Client, server: Server, taken: nat)

  function Joined(db: Database): System {
    System(Connected(db), Drain(Start(db), Frame(ShowTable)), 1)
  }

  function SystemStep(s: System, a: Action): System {
    match a
    case User(e) => s.(client := Step(s.client, e))
    case ServerReads =>
      if s.taken < |s.client.sent|
      then s.(server := Consume(s.server, s.client.sent[s.taken]), taken := s.taken + 1)
      else s
  }

  function SystemRun(s: System, acts: seq<Action>): System {
    if acts == [] then s else SystemStep(SystemRun(s, acts[..|acts| - 1]), acts[|acts| - 1])
  }

  function EventsOf(acts: seq<Action>): seq<Event> {
    if acts == [] then []
    else EventsOf(acts[..|acts| - 1]) + (match acts[|acts| - 1] case User(e) => [e] case ServerReads => [])
  }

  /** The server has consumed a prefix of what the client sent. */
  ghost predicate InStep(db: Database, s: System) {
    s.taken <= |s.client.sent| && s.server == Drain(Start(db), s.client.sent[..s.taken])
  }

  lemma InStepKept(db: Database, s: System, a: Action)
    requires InStep(db, s)
    ensures InStep(db, SystemStep(s, a))
  {
    if a.User? {
      StepSends(s.client, a.e);
      assert (s.client.sent + TokensOf(s.client, a.e))[..s.taken] == s.client.sent[..s.taken];
    } else if s.taken < |s.client.sent| {
      ReadOne(db, s.client.sent, s.taken);
    }
  }

  lemma InStepEnd(db: Database, s: System)
    requires InStep(db, s)
    ensures Drain(s.server, s.client.sent[s.taken..]) == Final(db, s.client)
  {
    DrainAppend(Start(db), s.client.sent[..s.taken], s.client.sent[s.taken..]);
    assert s.client.sent[..s.taken] + s.client.sent[s.taken..] == s.client.sent;
  }

  /** In every interleaving the client runs as if alone, the server has consumed a
      prefix of what was sent, and what it will be once it has read the rest does
      not depend on the interleaving. */
  lemma {:induction false} InterleavingIsPrefix(db: Database, acts: seq<Action>)
    ensures var s := SystemRun(Joined(db), acts);
      && s.client == Run(Connected(db), EventsOf(acts))
      && InStep(db, s)
      && Drain(s.server, s.client.sent[s.taken..]) == Final(db, s.client)
  {
    if acts == [] {
      assert Frame(ShowTable)[..1] == Frame(ShowTable);
    } else {
      var front, a := acts[..|acts| - 1], acts[|acts| - 1];
      InterleavingIsPrefix(db, front);
      InStepKept(db, SystemRun(Joined(db), front), a);
      var es := EventsOf(front);
      if a.User? { assert (es + [a.e])[..|es|] == es; } else { assert es + [] == es; }
    }
    InStepEnd(db, SystemRun(Joined(db), acts));
  }

  lemma ReadOne(db: Database, ts: seq<Token>, k: nat)
    requires k < |ts|
    ensures Drain(Start(db), ts[..k + 1]) == Consume(Drain(Start(db), ts[..k]), ts[k])
  {
    assert ts[..k + 1] == ts[..k] + [ts[k]];
    DrainAppend(Start(db), ts[..k], [ts[k]]);
    var s := Drain(Start(db), ts[..k]);
    assert Drain(s, [ts[k]]) == Drain(Consume(s, ts[k]), []);
  }
}
