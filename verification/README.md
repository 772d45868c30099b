# Verification of the billboard session and of the server headers it ships

The repository holds a billboard manager in Java (a Swing client and a server
over a socket, with two database tables behind it) and the MariaDB server
headers that came with its database. This project models five parts in Dafny and
proves what each is for.

* **Session** (`Protocol`, `TableHistory`, `ClientModel`, `Mirror`, `Session`).
  The client sends one-way requests, a tag and then an object, on one stream and
  changes its own table at once, by row index. The server reads the stream later
  and changes `billboard` and `view` by id. `Protocol` is the wire and the
  tables, `ClientModel` the handlers and every interleaving, `Mirror` the
  agreement between the two tables, `TableHistory` what a history of requests
  leaves behind, and `Session` the two programs as objects.
* **IO_CACHE** (`ByteStream`, `IoCache`). The inline read, write, get, put and
  fill functions on real buffers, against a plain byte stream.
* **Byte order** (`Endian`, `ByteOrderGeneric`, `ByteOrderX86`, `Fields`,
  `HostFormats`). Loads and stores against base-256 values.
* **Counters and deadlines** (`Counters`, `Deadlines`). Counter macros under any
  schedule; absolute deadlines in 64 bits.
* **Masks** (`Bits`, `Masks`). `&`, `|` and `~` on words of any width, defined
  digit by digit (`Bits.AndBit`, `Bits.OrBit`, `Bits.NotBit`, `Bits.ShlBit` and
  `Bits.CastBit` say what they do to each bit), and the alignment and bit-count
  macros built from them.

## What the code does that its design does not promise

* A click on Delete before any selection writes the tag and then throws while
  unboxing the null id. The stream is out of step from there on
  (`ClientModel.FramingOfRuns`, `ClientModel.NullDeleteCrashesServer`).
* After a delete the remembered id and row are stale. A second delete removes
  one row on the client and none, or another, on the server
  (`Mirror.StepKeepsMirrorIff`, `Mirror.StaleDeleteBreaksMirror`). The id box of
  the Edit form is editable until Edit is first pressed, and so are the cells of
  the table; both can break the mirror in the same way
  (`Mirror.TypedIdBreaksMirror`, `Mirror.TypedCellBreaksMirror`). So can dragging
  a column header, since the selection listener reads the first displayed column
  (`Mirror.DraggedHeaderBreaksMirror`).
* An insert into `view` names no id, and the shipped `view` table does not count:
  every new row gets the id 1. With row 1 in place the first Submit ends the
  server (`ClientModel.RepeatedDefaultEndsServer`); with row 1 deleted it gives
  the new row the old id (`Mirror.ReusedIdBreaksMirror`,
  `Mirror.ReusedIdUnpairs`). `Protocol.AddKeepsPairedIff` and
  `Mirror.CarefulRunIff` say exactly what survives.
* An edit is stored in `billboard`, but the table shown is read from `view`
  (`Mirror.UpdateKeepsCellsIff`, `Mirror.EditBreaksCells`). Cell by cell it is
  `billboard` that a careful user's client agrees with
  (`Mirror.CarefulRunShowsBillboard`).
* MY_ALIGN wraps to 0 when the address is within L - 1 of the end of the word
  (`Masks.AlignUpMeaning`), and a deadline wraps at 2^64 nanoseconds
  (`Deadlines.DeadlineIsExact`).

## Assumptions

* The tables are those of schema `schedules`, which
  Assignment/src/db.props selects. Their definitions are billboard.frm and
  view.frm in mariaDB/mariadb-10.5.2-winx64/data/schedules. In both, the id is an
  INT primary key and the other columns begin with name, message, info, url.
  `billboard.billboardID` is AUTO_INCREMENT. `view.BillboardID` is not: it is NOT
  NULL with default 1. The rows shipped are 1 in `view` and 1, 3, 4, 5, 6, 7, 8 in
  `billboard`, with 9 as the next number; the two rows 1 differ in message and
  info, so these tables are `Paired` with 1 among the edited ids.
* `ViewIds` keeps both readings of the insert into `view`: `DefaultId(1)` is the
  shipped column, `AutoIncrement` the column altered to count, as the insert seems
  to expect. Results that need the second say so; the rest hold with both.
  `Ordered` is what the database sees to with either: unique keys, rows in key
  order, counters above them. The rows themselves may be any.
* Texts contain nothing that changes the meaning of an SQL statement, and fit
  their columns. Apart from the insert that repeats a key, every statement
  succeeds.
* Socket writes succeed; a write is one step and a read is one step. A client
  handler runs as one step, since after the handshake nothing the server does
  reaches the client.
* Text boxes holding an id are modelled by the number that `Integer.valueOf`
  finds in them, or by none. The database compares a numeric id with a text by
  the number that the digits of the text spell; a text with anything else in it
  names no row.
* `_my_b_read`, `_my_b_get`, `_my_b_write`, `my_b_flush_io_cache` and the
  initialisation of a cache are only declared in the header. The bodies marked
  ASSUMED in `IoCache` are the least its comments ask for. Reads may fail, and
  the disk accepts a given number of bytes and then refuses. What is proved of
  the inline functions in their slow path rests on these bodies.
* `WriteRun`, `ReadRun`, `StoreRecord` and `Play` are callers that make an
  arbitrary sequence of calls, so that a statement about them is a statement
  about every run.
* In the generic header the buffer argument of a reader points to unsigned char.
  `long` has 32 bits in the 32-bit x86 header. Signed overflow in a shift wraps.

## Model

| member | source | states |
|---|---|---|
| Mirror.MirrorInEveryInterleaving | Assignment/src/clientGUI.java:92-189 | in every interleaving of user events and server reads after the handshake, if each delete follows its own selection, no delete falls between Edit and Update, and there are no more Submits than the tables bear (any number where `view` counts its ids; with a default id one, or none if a snapshot row has it), the client's id column is at every moment the id column of the `view` table with all pending tokens applied, cut down to the snapshot ids, in the same order; with nothing pending it is that of the table itself |
| Mirror.StepKeepsMirrorIff | Assignment/src/clientGUI.java:119-139 | from any well-framed state in which the mirror holds, and with either way of numbering `view`, one handler keeps it if and only if a test passes: on Delete the selected row still carries the remembered id (or, with the row out of range, no row does), on Update the row to edit carries the id in the form, on typing into an id cell the id is the old one, on Submit the new row does not get a snapshot id that is free; a counter never hands out one |
| Mirror.CarefulRunKeepsMirror | Assignment/src/clientGUI.java:92-205 | every run of a user who selects before each delete and presses Edit before each Update, with no more Submits than the tables bear, keeps the mirror and the framing, with the fields `billboardID`, `selectedRow`, `rowToEdit` pointing at the rows they are meant to |
| Mirror.MirrorOfRunsIff | Assignment/src/clientGUI.java:92-228 | for every run that the server survives, the mirror holds at each of its moments if and only if the test passes at each of its steps |
| Mirror.CarefulRunIff | Assignment/src/Server.java:41-43 | for a careful user the server survives and the mirror holds at every moment if and only if the number of Submits is one that the tables bear; so with a default id that a snapshot row has, as in the shipped tables, the first Submit already breaks one or the other |
| Mirror.CarefulRunShowsSurvivors | Assignment/src/clientGUI.java:119-139 | after such a run the client shows an id if and only if it was in the snapshot and the user sent no delete for it |
| Mirror.CarefulRunSchedules | Assignment/src/clientGUI.java:299-318 | after such a run a row of the snapshot that was not deleted is in `view`, alone with its id, with the date, start and end of the last Schedule whose id text names it, and otherwise as it was |
| Mirror.StaleDeleteBreaksMirror | Assignment/src/clientGUI.java:130-135 | in every table with a row behind the selected one, two clicks on Delete with one selection break the mirror: the second removes a row that the server keeps |
| Mirror.ReusedIdBreaksMirror | Assignment/src/Server.java:43 | with a default id, selecting and deleting the row that has it and then submitting: every statement succeeds and the user is careful, but `view` holds the id again and the client does not show it |
| Mirror.ReusedIdUnpairs | Assignment/src/Server.java:41-43 | the new `view` row then stands beside a `billboard` row that is not its own, unless all cells happen to be equal |
| Mirror.DraggedHeaderBreaksMirror | Assignment/src/clientGUI.java:98 | the selection listener reads the first displayed column: with another column dragged there whose cell reads as a number other than the row id, selecting and deleting breaks the mirror |
| Mirror.UpdateKeepsCellsIff | Assignment/src/clientGUI.java:176-189 | an update goes to `billboard`, while the rows shown come from `view`: name, message, info and url of the edited row still agree with `view` if and only if the update changed nothing |
| Mirror.StepKeepsCellsIff | Assignment/src/clientGUI.java:92-228 | the same for every handler: from any well-framed state in which all cells agree with `view` they agree afterwards if and only if the id test passes and an update or a typed text changes nothing |
| Mirror.ConnectedCells | Assignment/src/clientGUI.java:73-89 | right after the handshake all cells agree with `view` |
| Mirror.EditBreaksCells | Assignment/src/clientGUI.java:143-205 | for every non-empty table: select the first row, press Edit, change any cell, press Update; the cells agree with `view` up to the last click and no longer after it |
| Mirror.CarefulRunShowsBillboard | Assignment/src/clientGUI.java:164-205 | after every such run that types into no text cell of the table, each row of the client agrees on id, name, message, info and url with a row of the `billboard` table that the server will have, unless its two records differed before the run and the run did not edit it: what the client mirrors beyond ids is `billboard` |
| Mirror.BillboardInEveryInterleaving | Assignment/src/Server.java:108-117 | the same at every moment of every interleaving |
| Mirror.TypedTextBreaksBillboard | Assignment/src/clientGUI.java:87-90 | a changed text typed straight into a name, message, information or url cell breaks that agreement, since nothing is sent |
| Mirror.TypedIdBreaksMirror | Assignment/src/clientGUI.java:164-189 | for every non-empty table: a wrong id typed into the form before Edit was ever pressed, followed by Update, breaks the id mirror |
| Mirror.TypedCellBreaksMirror | Assignment/src/clientGUI.java:84-89 | a wrong id typed into any row of the shown table breaks the id mirror |
| Mirror.RemoveAtIsWithout | Assignment/src/clientGUI.java:134 | in a column of distinct ids, removing by row index is removing by id exactly when that row holds the id |
| ClientModel.FramingOfRuns | Assignment/src/Server.java:26-128 | for every sequence of handler calls and either way of numbering: the server, having read everything, is at a tag boundary if and only if Delete was never clicked before a selection and no Submit found its `view` key taken; it has ended if and only if a Submit did, or something was sent after such a click; otherwise it waits for the missing object; it never spins and has sent exactly the one handshake reply |
| ClientModel.CountedFraming | Assignment/src/Server.java:26-128 | where `view` counts its ids no Submit is refused, and both conditions are about Delete clicks alone |
| ClientModel.RepeatedDefaultEndsServer | Assignment/src/Server.java:41-43 | with a default id that a row has, as in the shipped tables, the first Submit enters `billboard`, is refused by `view`, and ends the server |
| ClientModel.NullDeleteCrashesServer | Assignment/src/clientGUI.java:123-128 | Delete with nothing selected sends a tag without an object, and the next Submit ends the server and is lost |
| ClientModel.UpdateEmptiesForm | Assignment/src/clientGUI.java:168-200 | one press of Update is one edit: after an Update that found its row, in every run, no further Update sends anything or changes any field until Edit or typing has put an id into the form again |
| ClientModel.EditLocksForm | Assignment/src/clientGUI.java:153-159 | after an Edit that found its row, whatever the user does short of Edit and Update, the form holds the id of that row and cannot be typed over, so the next Update asks for an edit of that id |
| ClientModel.LockedForGood | Assignment/src/clientGUI.java:154 | once Edit has locked the id box it stays locked in every run |
| ClientModel.TypedColumn | Assignment/src/clientGUI.java:87-90 | typing into a column sets its cell and no other |
| ClientModel.InterleavingIsPrefix | Assignment/src/Server.java:26-47 | in every interleaving the client behaves as if alone, the server has consumed a prefix of the stream, and the state it will reach does not depend on the interleaving |
| ClientModel.CleanRunIsCarriedOut | Assignment/src/Server.java:32-117 | the framing holds if and only if there was no null delete and every insert among the requests found its key free; then the final tables are those of the requests applied once each, in order |
| ClientModel.CleanRunSendsFrames | Assignment/src/clientGUI.java:122-129 | without a null delete the stream is the concatenation of the frames of the requests made |
| Protocol.DrainFrames | Assignment/src/Server.java:30-117 | a stream of complete requests is taken apart into exactly those requests, one tag and one object of the right class each, one reply for each showTable, unless an insert finds its key taken, and then the server has ended |
| Protocol.ScheduledCells | Assignment/src/Server.java:58 | row by row, the rows whose id the text names and no others get the date and the two times |
| Protocol.ObjectAtTagSpins | Assignment/src/Server.java:26-124 | an object where a tag should be makes the server go round its loop for ever, reading nothing more and changing no table |
| Protocol.TablesStayPaired | Assignment/src/Server.java:33-62 | where both tables count, and in step, for every token stream, well framed or not: the counters stay equal, each `view` row has its `billboard` row, and they agree on name, message, info and url unless that id was edited |
| Protocol.KeysStayInOrder | Assignment/src/Server.java:41-117 | for every token stream and either way of numbering, ids stay unique and increasing and counters stay above them |
| Protocol.AddKeepsPairedIff | Assignment/src/Server.java:41-43 | with either way of numbering an addBillboard keeps the tables paired if and only if `view` refuses it, or hands out the same id as `billboard`, or hands out the id of a `billboard` row that fits already |
| Protocol.PairedThroughoutIff | Assignment/src/Server.java:33-117 | for every token stream and either way of numbering the tables are paired at every moment if and only if every addBillboard meets that condition |
| TableHistory.ViewFate | Assignment/src/Server.java:99-107 | a `view` row whose id no insert hands out again is there after a history of requests if and only if none deleted its id, and then it is the old row with the last schedule whose text reads as its id, leading zeros included |
| TableHistory.BillboardFate | Assignment/src/Server.java:108-117 | a `billboard` row is never removed and shows the cells of the last edit of its id |
| TableHistory.InsertedRows | Assignment/src/Server.java:41-43 | a new billboard enters `billboard` under a number that no row has; it enters `view` under the next counter value or the default id, which no `view` row has, or leaves `view` alone exactly when a row has the default id |
| TableHistory.AcceptedIff | Assignment/src/Server.java:43 | with a default id no insert of a history is refused if and only if before each of them the last insert or delete of that id was a delete, or there was none and the id was free at the start; a counter refuses none |
| TableHistory.TextNamesOneId | Assignment/src/Server.java:58 | the texts that name an id in a schedule request are its decimal form behind any number of zeros and no others; so a text names at most one id, and every id has a text |
| TableHistory.ParseIntOfSigned | Assignment/src/clientGUI.java:98 | a decimal with or without a sign is read as that number when it fits 32 bits, and otherwise as none |
| TableHistory.ParseIntTakes | Assignment/src/clientGUI.java:98 | nothing else is taken for a number |
| Session.ClientGUI.OnDelete | Assignment/src/clientGUI.java:119-139 | the Delete handler on the fields: the tag, the object, the row removed by index, and the two exceptions it can end in |
| Session.ClientGUI.OnUpdate | Assignment/src/clientGUI.java:164-205 | the Update handler on the fields: the tag and the edit sent, the five cells set, the form emptied and the row forgotten, with its number-format and row-range exceptions |
| Session.ClientGUI.OnEdit | Assignment/src/clientGUI.java:143-163 | the Edit handler puts the id of the remembered row into the form, locks the box, and remembers the row as the one to edit |
| Session.ClientGUI.OnSelect | Assignment/src/clientGUI.java:92-103 | the selection listener remembers row and number of the first displayed cell, ignores an empty selection, and changes nothing when that cell is null or no number |
| Session.ClientGUI.OnSubmit | Assignment/src/clientGUI.java:210-228 | Submit sends one addBillboard frame |
| Session.ClientGUI.OnSchedule | Assignment/src/clientGUI.java:299-318 | Schedule sends one addView frame |
| Session.ServerMain.ReadOne | Assignment/src/Server.java:26-124 | one read of the dispatch loop: tag, switch, cast, statements, and both ways of failing |
| Session.ServerMain.OnObject | Assignment/src/Server.java:33-117 | what each request does to the rows of the two tables, cell by cell, and what a failed cast leaves alone |
| Session.ServerMain.InsertIntoView | Assignment/src/Server.java:43 | the insert that names no id: numbered by the counter, or entered in key order under the default id, or refused with the table left alone |
| Session.ServerMain.CopyTable | Assignment/src/Server.java:71-91 | the copy loop returns the rows of the result set, in order |
| Session.ServerMain.Serve | Assignment/src/Server.java:26-130 | the dispatch loop consumes all that has arrived and leaves the state of the token-by-token server |
| Session.Play | Assignment/src/clientGUI.java:65-189 | the two objects, moved in any order from the handshake on, follow the interleaving state machine, and the id mirror holds on their fields for a careful user with no more Submits than the tables bear |
| IoCache.IO_CACHE.Read | mariaDB/mariadb-10.5.2-winx64/include/mysql/server/my_sys.h:525-534 | my_b_read delivers the next bytes of the file and moves the position by as many; what the window holds it delivers whatever the disk does; short of the end `error` counts the bytes delivered, which are the rest of the file; the caller's memory beyond the request is untouched |
| IoCache.IO_CACHE.Get | mariaDB/mariadb-10.5.2-winx64/include/mysql/server/my_sys.h:547-555 | my_b_get returns the next byte and moves by one, from the window as long as it holds one; it returns INT_MIN only with an empty window at the end of the file or when the disk fails |
| IoCache.IO_CACHE.Fill | mariaDB/mariadb-10.5.2-winx64/include/mysql/server/my_sys.h:566-580 | my_b_fill skips exactly the bytes left in the window, so it skips none if and only if the window was used up; it returns the bytes now in the window, 0 only at the end or on an error |
| IoCache.IO_CACHE.Write | mariaDB/mariadb-10.5.2-winx64/include/mysql/server/my_sys.h:536-545 | my_b_write puts the data right behind what was written before; it succeeds whenever the bytes in cache allow it, and then leaves the file alone, and whenever the disk has room for it behind the buffered bytes; it fails only on a full window that the disk refuses, and then leaves a prefix whose length write_tell shows |
| IoCache.IO_CACHE.WriteByte | mariaDB/mariadb-10.5.2-winx64/include/mysql/server/my_sys.h:557-564 | my_b_write_byte writes one byte behind the rest; it fails if and only if the window is full and the disk has no room for the buffered bytes, and then changes neither content nor position |
| IoCache.IO_CACHE.Tell | mariaDB/mariadb-10.5.2-winx64/include/mysql/server/my_sys.h:582-594 | my_b_tell is the stream position of a read cache, and agrees with my_b_write_tell on a write cache |
| IoCache.IO_CACHE.TellReachesWindowEnd | mariaDB/mariadb-10.5.2-winx64/include/mysql/server/my_sys.h:601-617 | tell plus the bytes left in the cache is the file position plus the bytes in the buffer, and those bytes left are the next bytes of the file |
| IoCache.IO_CACHE.WriteTellReachesWindowEnd | mariaDB/mariadb-10.5.2-winx64/include/mysql/server/my_sys.h:591-617 | on a write cache, write_tell plus the bytes in cache is the end of the window |
| IoCache.WriteRun | mariaDB/mariadb-10.5.2-winx64/include/mysql/server/my_sys.h:536-594 | however a byte string is cut into my_b_write and my_b_write_byte calls, for any buffer of at least one byte: the calls and the final flush succeed if and only if the disk has room for the bytes buffered before and the string; then write_tell is the start plus the bytes so far after each call, and the file holds the string from the start offset on, the old content in front of it, and the old content behind it where the string ends inside; otherwise the content is the old one overwritten by the prefix of the string up to write_tell |
| IoCache.OverwriteRun | mariaDB/mariadb-10.5.2-winx64/include/mysql/server/my_sys.h:536-594 | the same on a new cache at any offset of any file, in three parts of the resulting file |
| IoCache.AppendRun | mariaDB/mariadb-10.5.2-winx64/include/mysql/server/my_sys.h:536-564 | a run that starts at the end of a file succeeds if and only if the disk has room for its bytes, and then has appended exactly those |
| IoCache.TellsAt | mariaDB/mariadb-10.5.2-winx64/include/mysql/server/my_sys.h:591-594 | entry i of the positions reported by a run is the start plus the bytes of the first i + 1 calls |
| IoCache.ReadRun | mariaDB/mariadb-10.5.2-winx64/include/mysql/server/my_sys.h:525-589 | any mix of my_b_read, my_b_get and, on a used-up window, my_b_fill hands over the file contiguously from the start offset, and tell moves by exactly the bytes handed over; the run gets all it asks for if and only if, on a healthy disk, the file has that many bytes left, and on one that does not answer, the window has |
| IoCache.BulkReadIsGets | mariaDB/mariadb-10.5.2-winx64/include/mysql/server/my_sys.h:525-555 | one my_b_read of n bytes and n calls of my_b_get, from the same place of the same file and through buffers of any two sizes, succeed together and deliver the same bytes |
| IoCache.ReadBothWays | mariaDB/mariadb-10.5.2-winx64/include/mysql/server/my_sys.h:525-580 | the same for any two ways of cutting up one length into bulk reads, single reads and refills |
| ByteStream.BulkIsSingles | mariaDB/mariadb-10.5.2-winx64/include/mysql/server/my_sys.h:525-555 | on the byte stream that the readers above are proved against, one step of n bytes is n steps of one byte, failure included |
| ByteStream.SpliceSplice | mariaDB/mariadb-10.5.2-winx64/include/mysql/server/my_sys.h:536-545 | writing two pieces one behind the other is writing their concatenation, also over existing content |
| ByteStream.SpliceOverwrites | mariaDB/mariadb-10.5.2-winx64/include/mysql/server/my_sys.h:538-543 | what a write leaves: the data in their place, every other byte as it was |
| ByteOrderGeneric.ReadsLittleEndian | mariaDB/mariadb-10.5.2-winx64/include/mysql/server/byte_order_generic.h:36-64 | every uintNkorr is the base-256 value of its bytes, low byte first |
| ByteOrderGeneric.ReadsTwosComplement | mariaDB/mariadb-10.5.2-winx64/include/mysql/server/byte_order_generic.h:21-35 | sint2korr, sint4korr and sint8korr are the two's-complement values of their bytes |
| ByteOrderGeneric.ReadsSigned24 | mariaDB/mariadb-10.5.2-winx64/include/mysql/server/byte_order_generic.h:23-30 | sint3korr is the two's-complement value of three bytes, from -2^23 to 2^23 - 1 |
| ByteOrderGeneric.Signed24RoundTrip | mariaDB/mariadb-10.5.2-winx64/include/mysql/server/byte_order_generic.h:69-73 | sint3korr and int3store are inverse on every three bytes and on every number of that range |
| ByteOrderGeneric.Int2Store | mariaDB/mariadb-10.5.2-winx64/include/mysql/server/byte_order_generic.h:65-68 | writes the two low base-256 digits of the argument, low byte first, and no other byte |
| ByteOrderGeneric.Int3Store | mariaDB/mariadb-10.5.2-winx64/include/mysql/server/byte_order_generic.h:69-73 | the same for three bytes, negative arguments included |
| ByteOrderGeneric.Int4Store | mariaDB/mariadb-10.5.2-winx64/include/mysql/server/byte_order_generic.h:74-78 | the same for four bytes |
| ByteOrderGeneric.Int5Store | mariaDB/mariadb-10.5.2-winx64/include/mysql/server/byte_order_generic.h:79-84 | the same for five bytes |
| ByteOrderGeneric.Int6Store | mariaDB/mariadb-10.5.2-winx64/include/mysql/server/byte_order_generic.h:85-91 | the same for six bytes |
| ByteOrderGeneric.Int8Store | mariaDB/mariadb-10.5.2-winx64/include/mysql/server/byte_order_generic.h:92-96 | the same for eight bytes, from two 32-bit halves |
| ByteOrderX86.LoadsAgree | mariaDB/mariadb-10.5.2-winx64/include/mysql/server/byte_order_generic_x86_64.h:21-52 | every word load gives the value of the byte-by-byte definition on every memory |
| ByteOrderX86.Int2Store | mariaDB/mariadb-10.5.2-winx64/include/mysql/server/byte_order_generic_x86_64.h:54-56 | leaves the bytes that the generic store leaves |
| ByteOrderX86.Int3Store | mariaDB/mariadb-10.5.2-winx64/include/mysql/server/byte_order_generic_x86_64.h:58-61 | leaves the bytes that the generic store leaves, although one shift is logical and the other arithmetic on a negative argument |
| ByteOrderX86.Int4Store | mariaDB/mariadb-10.5.2-winx64/include/mysql/server/byte_order_generic_x86.h:54 | leaves the bytes that the generic store leaves |
| ByteOrderX86.Int5Store | mariaDB/mariadb-10.5.2-winx64/include/mysql/server/byte_order_generic_x86_64.h:67-70 | leaves the bytes that the generic store leaves |
| ByteOrderX86.Int6Store | mariaDB/mariadb-10.5.2-winx64/include/mysql/server/byte_order_generic_x86_64.h:72-75 | leaves the bytes that the generic store leaves |
| ByteOrderX86.Int8Store | mariaDB/mariadb-10.5.2-winx64/include/mysql/server/byte_order_generic_x86_64.h:77-79 | leaves the bytes that the generic store leaves |
| ByteOrderX86.ReadsBigEndian | mariaDB/mariadb-10.5.2-winx64/include/mysql/server/byte_order_generic_x86_64.h:90-123 | mi_uint5korr to mi_uint8korr return the base-256 value of their bytes, high byte first, so the shift loses no bit |
| ByteOrderX86.BigEndianIsReversed | mariaDB/mariadb-10.5.2-winx64/include/mysql/server/byte_order_generic_x86_64.h:90-123 | mi_uint5korr, mi_uint6korr and mi_uint8korr equal the low-byte-first readers on the reversed bytes |
| Fields.RecordRoundTrip | mariaDB/mariadb-10.5.2-winx64/include/mysql/server/byte_order_generic.h:36-96 | for any list of fields of widths 2, 3, 4, 5, 6 and 8 side by side, stored in any order, each stored field reads back its value modulo 256^width and each other field what it held |
| Fields.RecordIsAllDigits | mariaDB/mariadb-10.5.2-winx64/include/mysql/server/byte_order_generic.h:65-96 | with all fields stored, in whatever order, the record is the low-byte-first digits of its fields side by side from its first byte on, without padding |
| Fields.OutsideUntouched | mariaDB/mariadb-10.5.2-winx64/include/mysql/server/byte_order_generic.h:65-96 | no store touches a byte outside the record |
| Fields.StoreRecord | mariaDB/mariadb-10.5.2-winx64/include/mysql/server/byte_order_generic.h:65-96 | the stores, run on one array in any order, leave the memory that the two properties above speak about |
| HostFormats.StoredFormatIsHostIndependent | mariaDB/mariadb-10.5.2-winx64/include/mysql/server/big_endian.h:19-38 | little-endian, big-endian and word-swapped hosts store the same bytes for the same float or double |
| HostFormats.CrossHostRoundTrip | mariaDB/mariadb-10.5.2-winx64/include/mysql/server/little_endian.h:20-53 | a float or double stored on one host and read on another keeps its image |
| HostFormats.StoredIsInjective | mariaDB/mariadb-10.5.2-winx64/include/mysql/server/little_endian.h:28-46 | the memory a get macro finds is the one that was stored |
| HostFormats.BigFloat4Store | mariaDB/mariadb-10.5.2-winx64/include/mysql/server/big_endian.h:19-22 | writes the bytes of the value in reverse and no other byte |
| HostFormats.BigFloat4Get | mariaDB/mariadb-10.5.2-winx64/include/mysql/server/big_endian.h:24-29 | the value read is the one whose store gives those bytes |
| HostFormats.BigFloat8Store | mariaDB/mariadb-10.5.2-winx64/include/mysql/server/big_endian.h:31-38 | writes the bytes of the value in reverse and no other byte |
| HostFormats.BigFloat8Get | mariaDB/mariadb-10.5.2-winx64/include/mysql/server/big_endian.h:40-49 | the value read is the one whose store gives those bytes |
| HostFormats.SwappedDoubleStore | mariaDB/mariadb-10.5.2-winx64/include/mysql/server/little_endian.h:28-36 | writes the two words of the value exchanged and no other byte |
| HostFormats.SwappedDoubleGet | mariaDB/mariadb-10.5.2-winx64/include/mysql/server/little_endian.h:37-46 | the value read is the one whose store gives those bytes |
| HostFormats.X86DoubleStore | mariaDB/mariadb-10.5.2-winx64/include/mysql/server/byte_order_generic_x86.h:78-81 | copying the two halves stores the plain bytes of the value |
| HostFormats.X86DoubleGet | mariaDB/mariadb-10.5.2-winx64/include/mysql/server/byte_order_generic_x86.h:73-77 | loading the two halves gives the value whose store gives those bytes |
| HostFormats.Int4NetIsReversed | mariaDB/mariadb-10.5.2-winx64/include/mysql/server/my_byteorder.h:24-27 | int4net is the big-endian two's-complement value, and sint4korr on the reversed bytes |
| HostFormats.Int4NetInvertsLongStore | mariaDB/mariadb-10.5.2-winx64/include/mysql/server/my_byteorder.h:24-27 | int4net and the big-endian longstore are inverse on every 32-bit value and on every four bytes |
| HostFormats.LongStore | mariaDB/mariadb-10.5.2-winx64/include/mysql/server/big_endian.h:70-73 | writes the four low digits of the argument, high byte first, and no other byte |
| Counters.LockedLosesNothing | mariaDB/mariadb-10.5.2-winx64/include/mysql/server/my_pthread.h:757-773 | for any number of threads and any schedule, updates under the lock exclude each other, counter and outstanding deltas always add up to start plus all deltas modulo the word size, and at the end the counter has them all |
| Counters.LockedProgress | mariaDB/mariadb-10.5.2-winx64/include/mysql/server/my_pthread.h:757-773 | until all are done some thread can move, and each move uses up one of finitely many steps |
| Counters.BareNeverOverCounts | mariaDB/mariadb-10.5.2-winx64/include/mysql/server/my_pthread.h:787-797 | bare updates in one direction, 0 included, for any threads and schedule and however often the word wraps: the counter is start plus all deltas less a loss, modulo the word size; the loss lies between nothing and all deltas; if every update changes the counter it is nothing if and only if no thread stored a value loaded before another thread's store |
| Counters.BareEndsBetween | mariaDB/mariadb-10.5.2-winx64/include/mysql/server/my_pthread.h:787-797 | when the total fits the word the counter ends between start and total; if every update changes it, at the total if and only if no such store happened |
| Counters.ZeroDeltasHideInterference | mariaDB/mariadb-10.5.2-winx64/include/mysql/server/my_pthread.h:787-797 | two threads that add 0 to any counter can interfere without a loss |
| Counters.BareAccount | mariaDB/mariadb-10.5.2-winx64/include/mysql/server/my_pthread.h:787-797 | the same account for deltas of any signs, where nothing is lost unless such a store happens |
| Counters.MixedLossesCanCancel | mariaDB/mariadb-10.5.2-winx64/include/mysql/server/my_pthread.h:787-797 | with deltas of both signs the total can be exact although such a store happened |
| Counters.BareCanLose | mariaDB/mariadb-10.5.2-winx64/include/mysql/server/my_pthread.h:784-786 | two bare increments of 0 can leave 1 |
| Deadlines.Timespec.Set | mariaDB/mariadb-10.5.2-winx64/include/mysql/server/my_pthread.h:322-327 | set_timespec gives a normalized deadline, equal to now plus the timeout if and only if the sum stays below 2^64; then tv_sec is the seconds of the microsecond clock plus the timeout, and tv_nsec the rest of the clock times 1000 |
| Deadlines.Timespec.SetTimeNsec | mariaDB/mariadb-10.5.2-winx64/include/mysql/server/my_pthread.h:356-360 | splits nanoseconds, kept in 64 bits, into seconds and a part below 1,000,000,000 |
| Deadlines.DeadlineIsExact | mariaDB/mariadb-10.5.2-winx64/include/mysql/server/my_pthread.h:325-326 | the deadline is the exact sum if and only if the sum stays below 2^64 |
| Deadlines.DeadlineInSeconds | mariaDB/mariadb-10.5.2-winx64/include/mysql/server/my_pthread.h:322-326 | in microseconds of the clock and seconds of timeout: the deadline is clock / 1,000,000 + timeout seconds and clock % 1,000,000 * 1000 nanoseconds |
| Deadlines.CmpIsTimeOrder | mariaDB/mariadb-10.5.2-winx64/include/mysql/server/my_pthread.h:348-352 | on normalized times cmp_timespec is the sign of the difference in nanoseconds |
| Deadlines.DeadlinesCompare | mariaDB/mariadb-10.5.2-winx64/include/mysql/server/my_pthread.h:322-352 | below the bound two deadlines compare as the instants they stand for |
| Deadlines.HrtimeSplits | mariaDB/mariadb-10.5.2-winx64/include/mysql/server/my_sys.h:962-965 | seconds and microseconds below a second rebuild the clock value |
| Deadlines.HrtimeIsDeadline | mariaDB/mariadb-10.5.2-winx64/include/mysql/server/my_sys.h:962-965 | a deadline without timeout is the clock value split by hrtime_to_time and hrtime_sec_part |
| Deadlines.HrtimeFromTimeIsExact | mariaDB/mariadb-10.5.2-winx64/include/mysql/server/my_sys.h:963 | hrtime_from_time is exact up to 18,446,744,073,709 seconds and wraps at 2^64 microseconds from the next one on |
| Masks.AlignUpMeaning | mariaDB/mariadb-10.5.2-winx64/include/mysql/server/my_global.h:865 | for any width and any power of two, MY_ALIGN is the least multiple at or above the address if and only if the addition does not leave the word |
| Masks.AlignDownMeaning | mariaDB/mariadb-10.5.2-winx64/include/mysql/server/my_global.h:866 | MY_ALIGN_DOWN is the greatest multiple at or below the address |
| Masks.AlignDownOrder | mariaDB/mariadb-10.5.2-winx64/include/mysql/server/my_global.h:866 | on all addresses MY_ALIGN_DOWN is monotone and idempotent and fixes exactly the multiples |
| Masks.AlignOrder | mariaDB/mariadb-10.5.2-winx64/include/mysql/server/my_global.h:865-866 | where the addition fits, MY_ALIGN is monotone, at or above MY_ALIGN_DOWN, and equal to it exactly on the multiples |
| Masks.AlignIdempotent | mariaDB/mariadb-10.5.2-winx64/include/mysql/server/my_global.h:865 | where the addition fits, MY_ALIGN is idempotent, since the block above the aligned address still fits |
| Masks.SetBitsMeaning | mariaDB/mariadb-10.5.2-winx64/include/mysql/server/my_global.h:513 | set_bits sets the lowest min(n, w) bits and no others, and is PREV_BITS below the width |
| Masks.TestAllBitsMeaning | mariaDB/mariadb-10.5.2-winx64/include/mysql/server/my_global.h:514 | test_all_bits is inclusion of bit sets |
| Masks.LowMasksInclusion | mariaDB/mariadb-10.5.2-winx64/include/mysql/server/my_global.h:513-514 | low masks are included in each other exactly as their capped bit counts are ordered |

## Left out

- Swing layout, dialogs, the preview button and image loading: library calls around no state of the protocol.
- The table-change listener (Assignment/src/clientGUI.java:110-118): it computes a value it does not use; the exception it raises when the last row is removed changes no field.
- Ids typed into a table cell that are not numbers: the cell then has no id to mirror.
- Failing socket writes, reconnecting, and a second client: the server accepts one socket.
- SQL text, quoting and the database's coercion of texts with signs, spaces, fractions or letters; the two inserts of addBillboard failing one without the other.
- The titles of the third and fourth column of the table: the client and the server's local variables exchange message and information, while the data keep the order of the columns.
- Digits of other scripts, which Integer.parseInt also takes.
- Payload classes Add, Edit, Delete, dataArray, MyClass: constructors of the token type.
- The `schedule` table: no statement uses it.
- Client.java and DBConnection.java: a console stub and a connection singleton.
- SEQ_READ_APPEND, shared caches, asynchronous I/O and the alignment of reads and writes to disk blocks: the code is not in the header.
- The position of a read cache after a failed read: the header does not promise one.
- Wrap-around of file offsets at 2^64 and of pointer sums at the end of memory.
- shortget, longget, ushortget, shortstore, longlongget and the plain memcpy forms: one-line variants of loads and stores that are modelled.
- The 3, 5 and 6 byte loads and 5 and 6 byte stores of the 32-bit x86 header: their text is that of the generic header.
- InterlockedIncrement and InterlockedExchangeAdd on Windows: single atomic steps.
- MY_ALIGN with operands of different widths.
- IEEE arithmetic: floats and doubles are byte images.
- Headers that only declare functions (json_lib.h, keycache.h, decimal.h, the client and plugin interfaces), error tables and SQLSTATE tables: no code, or finite data.
