/** The two programs as objects: the handlers of clientGUI.java and the dispatch
    loop of Server.java, each updating its own fields and the shared stream in the
    order in which the source does. */
module Session {
  import opened Wrappers
  import opened Protocol
  import opened ClientModel
  import opened Mirror

  /** What the client has written, in order. */
  class ObjectStream {
    var tokens: seq<Token>

    constructor ()
      ensures tokens == []
    {
      tokens := [];
    }

    method WriteUTF(name: string)
      modifies this
      ensures tokens == old(tokens) + [Tag(name)]
    {
      tokens := tokens + [Tag(name)];
    }

    method WriteObject(t: Token)
      requires !t.Tag?
      modifies this
      ensures tokens == old(tokens) + [t]
    {
      tokens := tokens + [t];
    }
  }

  /** How a handler ends: normally, or with an exception it does not catch. */
  datatype Outcome = Completed | NullPointer | RowOutOfRange | BadNumber

  class ClientGUI {
    const oos: ObjectStream
    var table2: seq<View>
    /** The column that the header of table2 shows first, unless it is the id. */
    var firstColumn: Option<Column>
    var billboardID: Option<int>
    var selectedRow: int
    var rowToEdit: int
    var editBbID: Option<int>
    var editBbIDEditable: bool

    function State(): Client
      reads this, oos
    {
      Client(table2, firstColumn, billboardID, selectedRow, rowToEdit, editBbID, editBbIDEditable, oos.tokens)
    }

    /** The constructor up to its readObject: showTable is on its way. */
    constructor (oos: ObjectStream)
      modifies oos
      ensures this.oos == oos
      ensures State() == Client([], None, None, 0, 0, None, true, old(oos.tokens) + Frame(ShowTable))
    {
      this.oos := oos;
      billboardID, selectedRow, rowToEdit := None, 0, 0;
      editBbID, editBbIDEditable := None, true;
      table2, firstColumn := [], None;
      new;
      oos.WriteUTF("showTable");
    }

    /** The rest of the constructor: the reply becomes the model of table2. */
    method SetModel(data: seq<View>)
      modifies this`table2
      ensures State() == old(State()).(rows := data)
    {
      table2 := data;
    }

    /** table2.getValueAt(row, 0): the first cell as displayed; None is null. */
    function FirstCell(row: nat): Option<string>
      requires row < |table2| && firstColumn.Some?
      reads this
    {
      CellText(table2[row], firstColumn.value)
    }

    /** valueChanged of the first selection listener */
    method OnSelect(row: int) returns (outcome: Outcome)
      modifies this
      ensures State() == Step(old(State()), Select(row))
      ensures outcome == if row < 0 then Completed
                         else if !old(State()).HasRow(row) then RowOutOfRange
                         else if old(State()).ShownNumber(row).Some? then Completed
                         else if CellText(old(table2)[row], old(firstColumn).value).None? then NullPointer
                         else BadNumber
      ensures 0 <= row < old(|table2|) && old(firstColumn).None? ==>
                billboardID == Some(old(table2)[row].id) && selectedRow == row
      ensures 0 <= row < old(|table2|) && old(firstColumn).Some? ==>
                match CellText(old(table2)[row], old(firstColumn).value)
                case None => outcome == NullPointer
                case Some(text) =>
                  if ParseInt(text).None? then outcome == BadNumber
                  else outcome == Completed && billboardID == ParseInt(text) && selectedRow == row
      ensures outcome != Completed ==> billboardID == old(billboardID) && selectedRow == old(selectedRow)
    {
      if row >= 0 {
        if row >= |table2| { return RowOutOfRange; }
        if firstColumn.None? {
          billboardID := Some(table2[row].id);
        } else {
          var cell := FirstCell(row);
          if cell.None? { return NullPointer; }
          var number := ParseInt(cell.value);
          if number.None? { return BadNumber; }
          billboardID := number;
        }
        selectedRow := row;
      }
      return Completed;
    }

    /** deleteButton1 */
    method OnDelete() returns (outcome: Outcome)
      modifies this, oos
      ensures State() == Step(old(State()), DeleteClick)
      ensures outcome == if NullDelete(old(State()), DeleteClick) then NullPointer
                         else if old(State()).HasRow(old(selectedRow)) then Completed
                         else RowOutOfRange
      ensures oos.tokens == old(oos.tokens) + [Tag("delete")]
                            + (if old(billboardID).Some? then [DeleteObject(old(billboardID).value)] else [])
      ensures table2 == if outcome == Completed
                        then old(table2)[..old(selectedRow)] + old(table2)[old(selectedRow) + 1..] else old(table2)
      ensures billboardID == old(billboardID) && selectedRow == old(selectedRow)
    {
      oos.WriteUTF("delete");
      match billboardID {
        case None => return NullPointer;
        case Some(id) =>
          oos.WriteObject(DeleteObject(id));
          if !(0 <= selectedRow < |table2|) { return RowOutOfRange; }
          table2 := table2[..selectedRow] + table2[selectedRow + 1..];
          return Completed;
      }
    }

    /** editButton1 */
    method OnEdit() returns (outcome: Outcome)
      modifies this
      ensures State() == Step(old(State()), EditClick)
      ensures outcome == if old(State()).HasRow(old(selectedRow)) then Completed else RowOutOfRange
      ensures outcome == Completed ==>
                editBbID == Some(old(table2)[old(selectedRow)].id) && !editBbIDEditable && rowToEdit == old(selectedRow)
      ensures table2 == old(table2) && selectedRow == old(selectedRow) && billboardID == old(billboardID)
    {
      if !(0 <= selectedRow < |table2|) { return RowOutOfRange; }
      editBbID := Some(table2[selectedRow].id);
      editBbIDEditable := false;
      rowToEdit := selectedRow;
      return Completed;
    }

    /** typing into the EditBbID box */
    method OnTypeId(number: Option<int>)
      modifies this
      ensures State() == Step(old(State()), TypeId(number))
      ensures editBbID == if old(editBbIDEditable) then number else old(editBbID)
    {
      if editBbIDEditable { editBbID := number; }
    }

    /** typing an id into a cell of the table */
    method OnTypeCell(row: int, id: int)
      modifies this
      ensures State() == Step(old(State()), TypeCell(row, id))
      ensures 0 <= row < old(|table2|) ==> table2 == old(table2)[row := old(table2)[row].(id := id)]
    {
      if 0 <= row < |table2| {
        table2 := table2[row := table2[row].(id := id)];
      }
    }

    /** typing a text into another cell */
    method OnTypeText(row: int, column: Column, text: string)
      modifies this
      ensures State() == Step(old(State()), TypeText(row, column, text))
    {
      if 0 <= row < |table2| {
        table2 := table2[row := WithText(table2[row], column, text)];
      }
    }

    /** dragging a column header: the display changes, the model does not */
    method OnDragHeader(first: Option<Column>)
      modifies this
      ensures State() == Step(old(State()), DragHeader(first))
    {
      firstColumn := first;
    }

    /** editUpdateButton */
    method OnUpdate(name: string, message: string, info: string, url: string) returns (outcome: Outcome)
      modifies this, oos
      ensures State() == Step(old(State()), UpdateClick(name, message, info, url))
      ensures outcome == if old(editBbID).None? then BadNumber
                         else if old(State()).HasRow(old(rowToEdit)) then Completed
                         else RowOutOfRange
      ensures oos.tokens == old(oos.tokens) +
                (if old(editBbID).None? then []
                 else [Tag("editTable"), EditObject(old(editBbID).value, name, message, info, url)])
      ensures outcome == Completed ==>
                && table2 == old(table2)[old(rowToEdit) := old(table2)[old(rowToEdit)].(
                     id := old(editBbID).value, name := name, message := message, info := info, url := url)]
                && editBbID == None && rowToEdit == -1
      ensures outcome != Completed ==>
                table2 == old(table2) && editBbID == old(editBbID) && rowToEdit == old(rowToEdit)
      ensures editBbIDEditable == old(editBbIDEditable)
    {
      if editBbID.None? { return BadNumber; }
      var id := editBbID.value;
      oos.WriteUTF("editTable");
      oos.WriteObject(EditObject(id, name, message, info, url));
      if !(0 <= rowToEdit < |table2|) { return RowOutOfRange; }
      table2 := table2[rowToEdit := table2[rowToEdit].(id := id)];
      table2 := table2[rowToEdit := table2[rowToEdit].(name := name)];
      table2 := table2[rowToEdit := table2[rowToEdit].(message := message)];
      table2 := table2[rowToEdit := table2[rowToEdit].(info := info)];
      table2 := table2[rowToEdit := table2[rowToEdit].(url := url)];
      rowToEdit := -1;
      editBbID := None;
      return Completed;
    }

    /** submitButton */
    method OnSubmit(name: string, message: string, info: string, url: string)
      modifies oos
      ensures State() == Step(old(State()), SubmitClick(name, message, info, url))
      ensures oos.tokens == old(oos.tokens) + [Tag("addBillboard"), AddObject(name, message, info, url)]
    {
      oos.WriteUTF("addBillboard");
      oos.WriteObject(AddObject(name, message, info, url));
    }

    /** scheduleSubmitButton */
    method OnSchedule(idText: string, date: string, startTime: string, endTime: string)
      modifies oos
      ensures State() == Step(old(State()), ScheduleClick(idText, date, startTime, endTime))
      ensures oos.tokens == old(oos.tokens) + [Tag("addView"), AddObject(idText, date, startTime, endTime)]
    {
      oos.WriteUTF("addView");
      oos.WriteObject(AddObject(idText, date, startTime, endTime));
    }

    method Handle(e: Event)
      modifies this, oos
      ensures State() == Step(old(State()), e)
    {
      match e {
        case Select(row) => var o := OnSelect(row);
        case DeleteClick => var o := OnDelete();
        case EditClick => var o := OnEdit();
        case TypeId(number) => OnTypeId(number);
        case UpdateClick(n, m, i, u) => var o := OnUpdate(n, m, i, u);
        case SubmitClick(n, m, i, u) => OnSubmit(n, m, i, u);
        case ScheduleClick(t, d, s, f) => OnSchedule(t, d, s, f);
        case TypeCell(row, id) => OnTypeCell(row, id);
        case TypeText(row, column, text) => OnTypeText(row, column, text);
        case DragHeader(first) => OnDragHeader(first);
      }
    }
  }

  class ServerMain {
    const ois: ObjectStream
    var taken: nat
    var phase: Phase
    var replies: seq<seq<View>>
    var billboard: seq<Billboard>
    var view: seq<View>
    var nextBillboard: int
    var viewIds: ViewIds

    function State(): Server
      reads this
    {
      Server(Database(billboard, view, nextBillboard, viewIds), phase, replies)
    }

    constructor (ois: ObjectStream, db: Database)
      ensures this.ois == ois && taken == 0 && State() == Start(db)
    {
      this.ois, taken, phase, replies := ois, 0, AwaitTag, [];
      billboard, view := db.billboard, db.view;
      nextBillboard, viewIds := db.nextBillboard, db.viewIds;
    }

    /** The copy loop of showTable: a row array filled from the result set. */
    method CopyTable() returns (data: array<View>)
      ensures fresh(data) && data[..] == view
    {
      var rowcount := |view|;
      data := new View[rowcount];
      for i := 0 to rowcount
        invariant data[..i] == view[..i]
      {
        data[i] := view[i];
      }
    }

    /** readUTF and the switch, up to the readObject of a request. */
    method OnTag(name: string)
      requires phase == AwaitTag
      modifies this`phase, this`replies
      ensures State() == Consume(old(State()), Tag(name))
      ensures phase == if name in {"addBillboard", "addView", "delete", "editTable"} then AwaitObject(name)
                       else AwaitTag
      ensures replies == if name == "showTable" then old(replies) + [view] else old(replies)
    {
      match name {
        case "addBillboard" => phase := AwaitObject(name);
        case "addView" => phase := AwaitObject(name);
        case "showTable" =>
          var data := CopyTable();
          replies := replies + [data[..]];
        case "delete" => phase := AwaitObject(name);
        case "editTable" => phase := AwaitObject(name);
        case _ =>
      }
    }

    /** The insert into `view` that names no id: a failed one is an exception, and
        leaves the table alone. */
    method InsertIntoView(n: string, m: string, i: string, u: string) returns (accepted: bool)
      modifies this`view, this`viewIds
      ensures match old(viewIds)
              case AutoIncrement(next) =>
                accepted && view == old(view) + [View(next, n, m, i, u, None, None, None)]
                && viewIds == AutoIncrement(next + 1)
              case DefaultId(id) =>
                viewIds == old(viewIds) && (accepted <==> id !in Ids(old(view)))
                && view == if accepted then InsertById(old(view), View(id, n, m, i, u, None, None, None)) else old(view)
    {
      match viewIds {
        case AutoIncrement(next) =>
          view := view + [View(next, n, m, i, u, None, None, None)];
          viewIds := AutoIncrement(next + 1);
          return true;
        case DefaultId(id) =>
          if id in Ids(view) { return false; }
          view := InsertById(view, View(id, n, m, i, u, None, None, None));
          return true;
      }
    }

    /** readObject, the cast, and the statements of the request's case. */
    method OnObject(tag: string, t: Token)
      requires phase == AwaitObject(tag)
      modifies this
      ensures State() == Consume(old(State()), t) && taken == old(taken)
      ensures replies == old(replies) && phase in {AwaitTag, Crashed}
      ensures tag == "addBillboard" && t.AddObject? ==>
                billboard == old(billboard) + [Billboard(old(nextBillboard), t.q1, t.q2, t.q3, t.q4)]
      ensures tag == "addBillboard" && t.AddObject? && old(viewIds).AutoIncrement? ==>
                view == old(view) + [View(old(viewIds).next, t.q1, t.q2, t.q3, t.q4, None, None, None)]
      ensures tag == "addView" && t.AddObject? ==>
                && |view| == old(|view|)
                && forall k :: 0 <= k < |view| ==>
                     view[k] == (if IdNumber(t.q1) == Some(old(view)[k].id)
                                 then old(view)[k].(date := Some(t.q2), startTime := Some(t.q3), endTime := Some(t.q4))
                                 else old(view)[k])
      ensures tag == "delete" && t.DeleteObject? ==>
                forall v :: v in view <==> v in old(view) && v.id != t.id
      ensures tag == "editTable" && t.EditObject? ==>
                && |billboard| == old(|billboard|)
                && forall k :: 0 <= k < |billboard| ==>
                     billboard[k] == (if old(billboard)[k].id == t.id
                                      then Billboard(t.id, t.q1, t.q2, t.q3, t.q4) else old(billboard)[k])
      ensures phase == Crashed && !(tag == "addBillboard" && t.AddObject?) ==>
                billboard == old(billboard) && view == old(view)
    {
      phase := Crashed;
      match tag {
        case "addBillboard" =>
          if t.AddObject? {
            billboard := billboard + [Billboard(nextBillboard, t.q1, t.q2, t.q3, t.q4)];
            nextBillboard := nextBillboard + 1;
            var accepted := InsertIntoView(t.q1, t.q2, t.q3, t.q4);
            if accepted { phase := AwaitTag; }
          }
        case "addView" =>
          if t.AddObject? {
            ScheduledCells(view, t.q1, t.q2, t.q3, t.q4);
            view := ScheduleViews(view, t.q1, t.q2, t.q3, t.q4);
            phase := AwaitTag;
          }
        case "delete" =>
          if t.DeleteObject? {
            forall v ensures v in DeleteViews(view, t.id) <==> v in view && v.id != t.id { DeletedRows(view, t.id, v); }
            view := DeleteViews(view, t.id);
            phase := AwaitTag;
          }
        case "editTable" =>
          if t.EditObject? {
            billboard := EditBillboards(billboard, t.id, t.q1, t.q2, t.q3, t.q4);
            phase := AwaitTag;
          }
        case _ =>
      }
    }

    /** One read from the stream, if there is something to read. */
    method ReadOne()
      requires taken <= |ois.tokens|
      modifies this
      ensures old(taken) == |ois.tokens| ==> State() == old(State()) && taken == old(taken)
      ensures old(taken) < |ois.tokens| ==>
                State() == Consume(old(State()), ois.tokens[old(taken)]) && taken == old(taken) + 1
    {
      if taken == |ois.tokens| { return; }
      var t := ois.tokens[taken];
      match phase {
        case AwaitTag =>
          if t.Tag? { OnTag(t.name); } else { phase := Spinning; }
        case AwaitObject(tag) => OnObject(tag, t);
        case _ =>
      }
      taken := taken + 1;
    }

    /** The endless loop, as far as the stream reaches. */
    method Serve()
      requires taken <= |ois.tokens|
      modifies this
      ensures taken == |ois.tokens|
      ensures State() == Drain(old(State()), ois.tokens[old(taken)..])
    {
      while taken < |ois.tokens|
        invariant taken <= |ois.tokens|
        invariant Drain(State(), ois.tokens[taken..]) == Drain(old(State()), ois.tokens[old(taken)..])
      {
        assert ois.tokens[taken..][1..] == ois.tokens[taken + 1..];
        ReadOne();
      }
    }
  }

  function Now(client: ClientGUI, server: ServerMain): System
    reads client, client.oos, server
  {
    System(client.State(), server.State(), server.taken)
  }

  method PlayOne(client: ClientGUI, server: ServerMain, a: Action)
    requires client.oos == server.ois && server.taken <= |client.oos.tokens|
    modifies client, server, client.oos
    ensures Now(client, server) == SystemStep(old(Now(client, server)), a)
    ensures server.taken <= |client.oos.tokens|
  {
    match a {
      case User(e) =>
        StepSends(client.State(), e);
        client.Handle(e);
      case ServerReads => server.ReadOne();
    }
  }

  /** Both programs, moving in an arbitrary order from the handshake on. At the end
      the objects are where the state machine says, and for a careful user the
      client's id column mirrors the server. */
  method Play(db: Database, acts: seq<Action>) returns (client: ClientGUI, server: ServerMain)
    ensures server.ois == client.oos && Now(client, server) == SystemRun(Joined(db), acts)
    ensures Ordered(db) && CarefulRun(Connected(db), EventsOf(acts)) && Bears(db, Submits(EventsOf(acts))) ==>
              server.taken <= |client.oos.tokens|
              && Ids(client.table2)
                 == Restrict(Ids(Drain(server.State(), client.oos.tokens[server.taken..]).db.view), Snapshot(db))
  {
    var stream := new ObjectStream();
    server := new ServerMain(stream, db);
    client := new ClientGUI(stream);
    server.ReadOne();
    DrainFrame(Start(db), ShowTable);
    assert server.State() == Drain(Start(db), Frame(ShowTable)) by {
      assert Drain(Start(db), Frame(ShowTable)) == Drain(Consume(Start(db), Tag("showTable")), []);
    }
    client.SetModel(server.replies[0]);
    for k := 0 to |acts|
      invariant client.oos == server.ois == stream && fresh(client) && fresh(server) && fresh(stream)
      invariant Now(client, server) == SystemRun(Joined(db), acts[..k])
      invariant server.taken <= |stream.tokens|
    {
      assert acts[..k + 1][..k] == acts[..k];
      PlayOne(client, server, acts[k]);
    }
    assert acts[..|acts|] == acts;
    if Ordered(db) && CarefulRun(Connected(db), EventsOf(acts)) && Bears(db, Submits(EventsOf(acts))) {
      MirrorInEveryInterleaving(db, acts);
    }
  }
}
