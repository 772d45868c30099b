/** What a history of requests leaves in the tables, told row by row: which rows
    survive, and which request had the last word on their cells. */
module TableHistory {
  import opened Wrappers
  import opened Protocol

  // ---- ids as text ----

  /** The text of a number, without leading zeros. */
  function Decimal(n: nat): string {
    var digit := ["0123456789"[n % 10]];
    if n < 10 then digit else Decimal(n / 10) + digit
  }

  function Zeros(k: nat): (s: string)
    ensures |s| == k && forall i :: 0 <= i < k ==> s[i] == '0'
  {
    seq(k, _ => '0')
  }

  lemma DigitText(d: nat)
    requires d < 10
    ensures var c := "0123456789"[d]; IsDigit(c) && Digit(c) == d
  {}

  lemma {:induction false} IdNumberOfZeros(k: nat)
    requires 0 < k
    ensures IdNumber(Zeros(k)) == Some(0)
  {
    if k > 1 {
      IdNumberOfZeros(k - 1);
      assert Zeros(k)[..k - 1] == Zeros(k - 1);
    }
  }

  lemma {:induction false} IdNumberOfDecimal(k: nat, n: nat)
    ensures IdNumber(Zeros(k) + Decimal(n)) == Some(n)
    decreases n
  {
    var text := Zeros(k) + Decimal(n);
    DigitText(n % 10);
    assert text[|text| - 1] == "0123456789"[n % 10];
    if n < 10 {
      assert text[..|text| - 1] == Zeros(k);
      if k > 0 { IdNumberOfZeros(k); }
    } else {
      IdNumberOfDecimal(k, n / 10);
      assert text[..|text| - 1] == Zeros(k) + Decimal(n / 10);
    }
  }

  lemma DigitIs(c: char)
    requires IsDigit(c)
    ensures "0123456789"[Digit(c)] == c
  {}

  /** The last digit of a text is that of its number; the rest spells the tenth. */
  lemma IdNumberSnoc(front: string, c: char, n: nat)
    requires IdNumber(front + [c]) == Some(n)
    ensures IsDigit(c) && Digit(c) == n % 10
    ensures if front == [] then n < 10 else IdNumber(front) == Some(n / 10)
  {
    var text := front + [c];
    assert text[..|text| - 1] == front && text[|text| - 1] == c;
  }

  lemma OneMoreZero(k: nat, c: char, n: nat)
    requires n < 10 && Decimal(n) == [c]
    ensures (Zeros(k) + Decimal(0)) + [c] == Zeros(k + 1) + Decimal(n)
  {}

  lemma OneMoreDigit(k: nat, c: char, n: nat)
    requires 10 <= n && c == "0123456789"[n % 10]
    ensures (Zeros(k) + Decimal(n / 10)) + [c] == Zeros(k) + Decimal(n)
  {}

  /** A text whose number is n is the decimal form of n behind some zeros. */
  lemma {:induction false} PaddedDecimal(text: string, n: nat) returns (k: nat)
    requires IdNumber(text) == Some(n)
    ensures text == Zeros(k) + Decimal(n)
  {
    var front, c := text[..|text| - 1], text[|text| - 1];
    assert text == front + [c];
    IdNumberSnoc(front, c, n);
    DigitIs(c);
    if front == [] {
      k := 0;
      assert text == Decimal(n);
    } else if n < 10 {
      k := PaddedDecimal(front, 0);
      OneMoreZero(k, c, n);
      k := k + 1;
    } else {
      k := PaddedDecimal(front, n / 10);
      OneMoreDigit(k, c, n);
    }
  }

  /** A schedule request names exactly the id whose decimal form its text is, up to
      leading zeros, so at most one, and every id can be named. */
  lemma TextNamesOneId(text: string, n: nat)
    ensures IdNumber(text) == Some(n) <==> exists k: nat :: text == Zeros(k) + Decimal(n)
  {
    if IdNumber(text) == Some(n) {
      var k := PaddedDecimal(text, n);
    }
    forall k: nat | text == Zeros(k) + Decimal(n) ensures IdNumber(text) == Some(n) {
      IdNumberOfDecimal(k, n);
    }
  }

  /** Integer.parseInt on a sign and a decimal, zeros in between allowed: the number
      with that sign if it fits 32 bits, and otherwise none. */
  lemma ParseIntOfSigned(k: nat, n: nat)
    ensures ParseInt(Zeros(k) + Decimal(n)) == ParseInt("+" + (Zeros(k) + Decimal(n)))
         == if n < 0x8000_0000 then Some(n) else None
    ensures var r := ParseInt("-" + (Zeros(k) + Decimal(n)));
      if n <= 0x8000_0000 then r.Some? && r.value + n == 0 else r.None?
  {
    IdNumberOfDecimal(k, n);
    DecimalStart(n);
    SignedDigits(Zeros(k) + Decimal(n), n);
  }

  lemma SignedDigits(digits: string, n: nat)
    requires digits != [] && IsDigit(digits[0]) && IdNumber(digits) == Some(n)
    ensures ParseInt(digits) == ParseInt("+" + digits) == if n < 0x8000_0000 then Some(n) else None
    ensures var r := ParseInt("-" + digits); if n <= 0x8000_0000 then r.Some? && r.value + n == 0 else r.None?
  {
    assert ("+" + digits)[1..] == digits && ("-" + digits)[1..] == digits;
  }

  lemma {:induction false} DecimalStart(n: nat)
    ensures Decimal(n) != [] && IsDigit(Decimal(n)[0])
  {
    if n < 10 { DigitText(n); } else { DecimalStart(n / 10); }
  }

  /** Nothing else is taken for a number. */
  lemma ParseIntTakes(text: string)
    requires ParseInt(text).Some?
    ensures exists sign: string, k: nat, n: nat ::
              (sign == "" || sign == "+" || sign == "-") && text == sign + (Zeros(k) + Decimal(n))
  {
    var signed := text != [] && text[0] in {'-', '+'};
    var sign, digits := if signed then text[..1] else "", if signed then text[1..] else text;
    var n := IdNumber(digits).value;
    var k := PaddedDecimal(digits, n);
    assert text == sign + (Zeros(k) + Decimal(n));
    assert sign == "" || sign == [text[0]];
    assert sign == "" || sign == "+" || sign == "-";
  }

  // ---- the billboard table ----

  /** The last edit of an id in a history. */
  function LastEdit(rs: seq<Request>, id: int): (r: Option<Request>)
    ensures r.Some? ==> r.value.EditTable? && r.value.id == id && r.value in rs
    ensures r.None? ==> forall q :: q in rs && q.EditTable? ==> q.id != id
  {
    if rs == [] then None
    else if LastEdit(rs[1..], id).Some? then LastEdit(rs[1..], id)
    else if rs[0].EditTable? && rs[0].id == id then Some(rs[0])
    else None
  }

  function Edited(b: Billboard, r: Option<Request>): Billboard {
    match r
    case Some(EditTable(_, n, m, i, u)) => Billboard(b.id, n, m, i, u)
    case _ => b
  }

  lemma BillboardStep(db: Database, r: Request, k: nat)
    requires k < |db.billboard|
    ensures k < |Apply(db, r).billboard|
    ensures var b := db.billboard[k];
      Apply(db, r).billboard[k] == if r.EditTable? && r.id == b.id then Edited(b, Some(r)) else b
  {}

  /** A billboard row keeps its place for good and shows its last edit. */
  lemma {:induction false} BillboardFate(db: Database, rs: seq<Request>, k: nat)
    requires k < |db.billboard|
    ensures k < |ApplyAll(db, rs).billboard|
    ensures ApplyAll(db, rs).billboard[k] == Edited(db.billboard[k], LastEdit(rs, db.billboard[k].id))
    decreases |rs|
  {
    if rs != [] {
      BillboardStep(db, rs[0], k);
      BillboardFate(Apply(db, rs[0]), rs[1..], k);
    }
  }

  // ---- the view table ----

  predicate Names(r: Request, id: int) {
    r.AddView? && IdNumber(r.idText) == Some(id)
  }

  /** The last schedule of an id in a history. */
  function LastSchedule(rs: seq<Request>, id: int): (r: Option<Request>)
    ensures r.Some? ==> Names(r.value, id) && r.value in rs
    ensures r.None? ==> forall q :: q in rs ==> !Names(q, id)
  {
    if rs == [] then None
    else if LastSchedule(rs[1..], id).Some? then LastSchedule(rs[1..], id)
    else if Names(rs[0], id) then Some(rs[0])
    else None
  }

  function Scheduled(v: View, r: Option<Request>): View {
    match r
    case Some(AddView(_, d, s, e)) => v.(date := Some(d), startTime := Some(s), endTime := Some(e))
    case _ => v
  }

  /** The row with an id, found by position. */
  ghost predicate ShowsOnly(view: seq<View>, v: View) {
    v in view && forall w :: w in view && w.id == v.id ==> w == v
  }

  /** The row that v becomes by a schedule request. */
  function AfterSchedule(v: View, r: Request): View
    requires r.AddView?
  {
    if Names(r, v.id) then Scheduled(v, Some(r)) else v
  }

  lemma ScheduledRow(view: seq<View>, r: Request, w: View)
    requires r.AddView?
    ensures w in ScheduleViews(view, r.idText, r.date, r.startTime, r.endTime)
       <==> exists v :: v in view && w == AfterSchedule(v, r)
  {
    var after := ScheduleViews(view, r.idText, r.date, r.startTime, r.endTime);
    ScheduledCells(view, r.idText, r.date, r.startTime, r.endTime);
    assert forall k :: 0 <= k < |view| ==> after[k] == AfterSchedule(view[k], r);
    if w in after {
      var k :| 0 <= k < |after| && after[k] == w;
      assert view[k] in view;
    }
    forall v | v in view && w == AfterSchedule(v, r) ensures w in after {
      var k :| 0 <= k < |view| && view[k] == v;
      assert after[k] == w;
    }
  }

  /** No insert of the history can hand out the id: a counter is past it, or it is
      not the default, or there is no insert. */
  predicate NotReused(db: Database, rs: seq<Request>, id: int) {
    match db.viewIds
    case AutoIncrement(next) => id < next
    case DefaultId(d) => id != d || forall r :: r in rs ==> !r.AddBillboard?
  }

  lemma NotReusedLater(db: Database, rs: seq<Request>, id: int)
    requires NotReused(db, rs, id) && rs != []
    ensures NotReused(Apply(db, rs[0]), rs[1..], id)
    ensures rs[0].AddBillboard? ==> id != NewViewId(db)
  {}

  /** One request, seen from one row. */
  lemma RowStep(db: Database, r: Request, v: View)
    requires ShowsOnly(db.view, v) && r != DeleteRow(v.id)
    requires db.viewIds.AutoIncrement? ==> v.id < db.viewIds.next
    ensures ShowsOnly(Apply(db, r).view, if Names(r, v.id) then Scheduled(v, Some(r)) else v)
  {
    match r {
      case DeleteRow(id) =>
        forall w ensures w in DeleteViews(db.view, id) <==> w in db.view && w.id != id { DeletedRows(db.view, id, w); }
      case AddView(_, _, _, _) =>
        ScheduleStep(db.view, r, v);
      case AddBillboard(_, _, _, _) => AddStep(db, r, v);
      case _ =>
    }
  }

  lemma ScheduleStep(view: seq<View>, r: Request, v: View)
    requires ShowsOnly(view, v) && r.AddView?
    ensures ShowsOnly(ScheduleViews(view, r.idText, r.date, r.startTime, r.endTime), AfterSchedule(v, r))
  {
    var after := ScheduleViews(view, r.idText, r.date, r.startTime, r.endTime);
    ScheduledRow(view, r, AfterSchedule(v, r));
    forall w | w in after && w.id == v.id ensures w == AfterSchedule(v, r) { ScheduledRow(view, r, w); }
  }

  lemma AddStep(db: Database, r: Request, v: View)
    requires ShowsOnly(db.view, v) && r.AddBillboard?
    requires db.viewIds.AutoIncrement? ==> v.id < db.viewIds.next
    ensures ShowsOnly(Apply(db, r).view, v)
  {
    IdOfRow(db.view, v.id);
    forall w | w in Apply(db, r).view && w.id == v.id ensures w == v { AddedRows(db, r, w); }
    AddedRows(db, r, v);
  }

  /** A deleted id never comes back, unless an insert hands it out again. */
  lemma {:induction false} DeletedForGood(db: Database, rs: seq<Request>, id: int)
    requires NotReused(db, rs, id) && forall v :: v in db.view ==> v.id != id
    ensures forall v :: v in ApplyAll(db, rs).view ==> v.id != id
    decreases |rs|
  {
    if rs != [] {
      var n := Apply(db, rs[0]);
      NotReusedLater(db, rs, id);
      forall v | v in n.view ensures v.id != id {
        if rs[0].DeleteRow? { DeletedRows(db.view, rs[0].id, v); }
        if rs[0].AddView? { ScheduledRow(db.view, rs[0], v); }
        if rs[0].AddBillboard? { AddedRows(db, rs[0], v); }
      }
      DeletedForGood(n, rs[1..], id);
    }
  }

  /** A view row whose id is not handed out again is in the table at the end if and
      only if no request deleted its id, and then it is the row it was, with its
      last schedule: edits and other rows' schedules do not reach it. */
  lemma {:induction false} ViewFate(db: Database, rs: seq<Request>, v: View)
    requires ShowsOnly(db.view, v) && NotReused(db, rs, v.id)
    ensures var after := ApplyAll(db, rs).view;
      if DeleteRow(v.id) in rs then forall w :: w in after ==> w.id != v.id
      else ShowsOnly(after, Scheduled(v, LastSchedule(rs, v.id)))
    decreases |rs|
  {
    if rs != [] {
      var r, n := rs[0], Apply(db, rs[0]);
      assert rs == [r] + rs[1..];
      NotReusedLater(db, rs, v.id);
      if r == DeleteRow(v.id) {
        forall w | w in n.view ensures w.id != v.id { DeletedRows(db.view, v.id, w); }
        DeletedForGood(n, rs[1..], v.id);
      } else {
        RowStep(db, r, v);
        ViewFate(n, rs[1..], if Names(r, v.id) then Scheduled(v, Some(r)) else v);
      }
    }
  }

  /** A new billboard enters `billboard` under the next number. If `view` does not
      refuse it, it enters that too, unscheduled, under an id that no row there had,
      and from then on its two rows go the way of every row. */
  lemma InsertedRows(db: Database, n: string, m: string, i: string, u: string)
    requires Ordered(db)
    ensures var r, id := AddBillboard(n, m, i, u), NewViewId(db);
      var d := Apply(db, r);
      && d.billboard == db.billboard + [Billboard(db.nextBillboard, n, m, i, u)]
      && (forall b :: b in db.billboard ==> b.id < db.nextBillboard)
      && if Refuses(db, r) then d.view == db.view && id in Ids(db.view)
         else ShowsOnly(d.view, View(id, n, m, i, u, None, None, None)) && id !in Ids(db.view)
              && forall v :: v in d.view <==> v in db.view || v == View(id, n, m, i, u, None, None, None)
  {
    var r := AddBillboard(n, m, i, u);
    var row := NewView(db, n, m, i, u);
    IdOfRow(db.view, row.id);
    forall w ensures w in Apply(db, r).view <==> w in db.view || (!Refuses(db, r) && w == row) {
      AddedRows(db, r, w);
    }
    forall b | b in db.billboard ensures b.id < db.nextBillboard {
      var k :| 0 <= k < |db.billboard| && db.billboard[k] == b;
      assert BillboardIds(db.billboard)[k] == b.id;
    }
  }

  // ---- which histories the server survives ----

  /** Whether `view` holds a row with an id after a history whose inserts all take
      that id: the last insert or delete of the id decides. */
  predicate Occupied(id: int, atStart: bool, rs: seq<Request>) {
    if rs == [] then atStart
    else
      match rs[|rs| - 1]
      case AddBillboard(_, _, _, _) => true
      case DeleteRow(d) => d != id && Occupied(id, atStart, rs[..|rs| - 1])
      case _ => Occupied(id, atStart, rs[..|rs| - 1])
  }

  lemma {:induction false} OccupiedLater(id: int, atStart: bool, r: Request, rs: seq<Request>)
    ensures Occupied(id, atStart, [r] + rs) == Occupied(id, Occupied(id, atStart, [r]), rs)
  {
    if rs == [] {
      assert [r] + rs == [r];
    } else {
      OccupiedLater(id, atStart, r, rs[..|rs| - 1]);
      assert ([r] + rs)[..|rs|] == [r] + rs[..|rs| - 1];
    }
  }

  lemma OccupiedStep(db: Database, r: Request)
    requires db.viewIds.DefaultId?
    ensures var d := db.viewIds.id;
      (d in Ids(Apply(db, r).view) <==> Occupied(d, d in Ids(db.view), [r])) && Apply(db, r).viewIds == db.viewIds
  {
    var d, n := db.viewIds.id, Apply(db, r);
    assert [r][..0] == [];
    match r {
      case AddBillboard(name, m, i, u) =>
        AddedRows(db, r, NewView(db, name, m, i, u));
        IdOfRow(n.view, d);
      case DeleteRow(id) =>
        DeletedIds(db.view, id);
        WithoutMembers(Ids(db.view), id, d);
      case AddView(_, _, _, _) => assert Ids(n.view) == Ids(db.view);
      case _ =>
    }
  }

  /** With a default id, a history is accepted if and only if at each insert the
      last insert or delete of that id, if any, was a delete, and without any the
      id was free at the start. A counter accepts every history. */
  lemma {:induction false} AcceptedIff(db: Database, rs: seq<Request>)
    ensures Accepted(db, rs)
       <==> match db.viewIds
            case AutoIncrement(_) => true
            case DefaultId(d) =>
              forall k :: 0 <= k < |rs| && rs[k].AddBillboard? ==> !Occupied(d, d in Ids(db.view), rs[..k])
    decreases |rs|
  {
    if rs != [] {
      var n, rest := Apply(db, rs[0]), rs[1..];
      AcceptedIff(n, rest);
      if db.viewIds.DefaultId? {
        var d, now := db.viewIds.id, db.viewIds.id in Ids(db.view);
        OccupiedStep(db, rs[0]);
        assert rs[..0] == [];
        forall k | 0 < k < |rs|
          ensures Occupied(d, now, rs[..k]) == Occupied(d, d in Ids(n.view), rest[..k - 1]) && rs[k] == rest[k - 1]
        {
          OccupiedLater(d, now, rs[0], rest[..k - 1]);
          assert rs[..k] == [rs[0]] + rest[..k - 1];
        }
        if Accepted(db, rs) {
          forall k | 0 <= k < |rs| && rs[k].AddBillboard? ensures !Occupied(d, now, rs[..k]) {
            if k > 0 { assert rest[k - 1].AddBillboard?; }
          }
        } else if !Refuses(db, rs[0]) {
          assert !Accepted(n, rest);
          var j :| 0 <= j < |rest| && rest[j].AddBillboard? && Occupied(d, d in Ids(n.view), rest[..j]);
          assert rs[j + 1].AddBillboard? && Occupied(d, now, rs[..j + 1]);
        } else {
          assert rs[0].AddBillboard? && Occupied(d, now, rs[..0]);
        }
      }
    }
  }
}
