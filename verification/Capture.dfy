/** The change log: what a write does to the tables and what is recorded about it. */
module Capture {
  import opened Options
  import opened Tables
  import opened Statements

  /** T is the marker an uncaptured TRUNCATE leaves. */
  datatype Op = I | U | D | T

  datatype Change = Change(id: nat, table: string, op: Op, pk: Row, oldRow: Option<Row>, newRow: Option<Row>)

  /** The effect of one row write, as the row trigger sees it. */
  datatype Write =
    | Ins(table: string, row: Row)
    | Upd(id: RowId, row: Row)
    | Del(id: RowId)
  {
    function Table(): string { if Ins? then table else id.table }
  }

  /** The row a write leaves behind, or the one it removes. */
  function Target(cat: Catalog, w: Write): RowId
    requires w.Table() in cat
  {
    if w.Del? then w.id else RowId(w.Table(), cat[w.Table()].Key(w.row))
  }

  /** Writes PostgreSQL lets through.  Identity columns declared ALWAYS keep their value. */
  ghost predicate Legal(cat: Catalog, db: Db, w: Write) {
    w.Table() in cat &&
    match w
    case Ins(table, row) => cat[table].ValidRow(row) && Target(cat, w) !in db
    case Del(id) => id in db
    case Upd(id, row) =>
      && id in db && cat[id.table].ValidRow(row)
      && (Target(cat, w) == id || Target(cat, w) !in db)
      && forall c | c in cat[id.table].always :: Get(row, c) == Get(db[id], c)
  }

  function Written(cat: Catalog, db: Db, w: Write): Db
    requires w.Table() in cat
  {
    match w
    case Ins(_, row) => db[Target(cat, w) := row]
    case Del(id) => db - {id}
    case Upd(id, row) => (db - {id})[Target(cat, w) := row]
  }

  /** The columns that moved (`v_changed`). */
  function Changed(before: Row, after: Row): set<string> {
    set c | c in after && Get(before, c) != after[c]
  }

  function Restrict(row: Row, cols: set<string>): Row {
    map c | c in row && c in cols :: row[c]
  }

  /**
   * The record the row trigger writes, if any.  `full` is the resolved
   * capture mode, `keepNoOp` the capture_no_op_updates setting.
   */
  function Captured(cat: Catalog, db: Db, w: Write, full: bool, keepNoOp: bool, id: nat): Option<Change>
    requires w.Table() in cat && (w.Ins? || w.id in db)
  {
    var s := cat[w.Table()];
    match w
    case Ins(table, row) => Some(Change(id, table, I, s.Key(row), None, Some(row)))
    case Del(rid) => Some(Change(id, rid.table, D, s.Key(db[rid]), Some(db[rid]), None))
    case Upd(rid, row) =>
      var moved := Changed(db[rid], row);
      if moved == {} && !keepNoOp then None
      else if moved != {} && !full then
        Some(Change(id, rid.table, U, s.Key(row), Some(Restrict(db[rid], moved)), Some(Restrict(row, moved))))
      else Some(Change(id, rid.table, U, s.Key(row), Some(db[rid]), Some(row)))
  }

  /**
   * What the capture mode asks of the record of an update.  One that changed nothing
   * is recorded, whole, exactly if such updates are kept; any other is recorded with
   * both whole rows in full mode, and else with the columns that moved, all of them.
   */
  ghost predicate FollowsMode(before: Row, row: Row, full: bool, keepNoOp: bool, c: Option<Change>) {
    var same := forall k | k in row :: Get(before, k) == row[k];
    && (c.Some? <==> !same || keepNoOp)
    && (c.Some? ==> c.value.oldRow.Some? && c.value.newRow.Some?)
    && (c.Some? && (full || same) ==> c.value.oldRow.value == before && c.value.newRow.value == row)
    && (c.Some? && !full && !same ==> MovedOnly(before, row, c.value.oldRow.value, c.value.newRow.value))
  }

  /** Both rows' values of the columns in which they differ. */
  ghost predicate MovedOnly(before: Row, row: Row, was: Row, now: Row) {
    && (forall k :: k in now <==> k in row && Get(before, k) != row[k])
    && (forall k :: k in was <==> k in row && k in before && before[k] != row[k])
    && (forall k | k in now :: now[k] == row[k])
    && (forall k | k in was :: was[k] == before[k])
  }

  /** An image that tells the truth about a row's stored columns. */
  ghost predicate Agrees(s: Schema, img: Row, row: Row) {
    img.Keys <= s.Columns() && forall c | c in img && c in s.base :: img[c] == Get(row, c)
  }

  /**
   * What undo and replay need from a record, whoever wrote it.  A generated
   * column may hold anything, as it does in history restored from an archive.
   */
  ghost predicate Faithful(cat: Catalog, db: Db, w: Write, c: Change)
    requires Legal(cat, db, w)
  {
    var s := cat[w.Table()];
    && c.table == w.Table()
    && match w
       case Ins(_, row) =>
         && c.op == I && c.pk == s.Key(row) && c.oldRow == None && c.newRow.Some?
         && Agrees(s, c.newRow.value, row) && s.base <= c.newRow.value.Keys
       case Del(id) =>
         && c.op == D && c.pk == id.key && c.newRow == None && c.oldRow.Some?
         && Agrees(s, c.oldRow.value, db[id]) && s.base <= c.oldRow.value.Keys
       case Upd(id, row) =>
         && c.op == U && c.pk == s.Key(row) && c.oldRow.Some? && c.newRow.Some?
         && c.oldRow.value.Keys == c.newRow.value.Keys
         && Agrees(s, c.oldRow.value, db[id]) && Agrees(s, c.newRow.value, row)
         && (forall k | k in s.base && Get(db[id], k) != Get(row, k) :: k in c.oldRow.value)
         && c.oldRow.value.Keys * s.Settable() != {}
  }

  /** A record whose old image is also exact on generated columns, as the trigger's is. */
  ghost predicate ExactOld(db: Db, w: Write, c: Change) {
    match w
    case Ins(_, _) => c.oldRow == None
    case Del(id) => id in db && c.oldRow == Some(db[id])
    case Upd(id, row) =>
      && id in db && c.oldRow.Some?
      && c.oldRow.value.Keys <= db[id].Keys
      && (forall k | k in c.oldRow.value :: c.oldRow.value[k] == db[id][k])
      && (forall k | k in db[id] && db[id][k] != Get(row, k) :: k in c.oldRow.value)
  }

  /** A write and what was logged about it; an update that changed nothing may go unrecorded. */
  datatype Entry = Entry(write: Write, change: Option<Change>)

  ghost predicate Recorded(cat: Catalog, db: Db, e: Entry)
    requires Legal(cat, db, e.write)
  {
    match e.change
    case None => e.write.Upd? && e.write.row == db[e.write.id]
    case Some(c) => Faithful(cat, db, e.write, c)
  }

  /** A run of recorded writes starting from `db`, oldest first. */
  ghost predicate History(cat: Catalog, db: Db, es: seq<Entry>)
    decreases |es|, 0
  {
    es == [] ||
    var n := |es| - 1;
    History(cat, db, es[..n]) && Extends(cat, End(cat, db, es[..n]), es[n])
  }

  ghost predicate Extends(cat: Catalog, db: Db, e: Entry) {
    Legal(cat, db, e.write) && Recorded(cat, db, e)
  }

  /** The tables after a run. */
  ghost function End(cat: Catalog, db: Db, es: seq<Entry>): Db
    requires History(cat, db, es)
    decreases |es|, 1
  {
    if es == [] then db
    else Written(cat, End(cat, db, es[..|es| - 1]), es[|es| - 1].write)
  }

  /** The log a run leaves, oldest first. */
  function Log(es: seq<Entry>): seq<Change> {
    if es == [] then []
    else
      var n := |es| - 1;
      Log(es[..n]) + if es[n].change.Some? then [es[n].change.value] else []
  }

  lemma ValidRowKeys(s: Schema, row: Row)
    requires s.ValidRow(row)
    ensures row.Keys == s.Columns()
  {
    assert s.Fill(row).Keys == s.Columns();
  }

  /** An update that leaves ALWAYS columns alone moves a settable column, or nothing at all. */
  lemma UpdateMovesSettable(s: Schema, before: Row, row: Row)
    requires s.Valid() && s.ValidRow(before) && s.ValidRow(row)
    requires forall c | c in s.always :: Get(row, c) == Get(before, c)
    requires row != before
    ensures exists c :: c in s.Settable() && c in before && c in row && before[c] != row[c]
  {
    ValidRowKeys(s, before);
    ValidRowKeys(s, row);
    if forall c | c in s.base :: Get(before, c) == Get(row, c) {
      SameStoredSameRow(s, before, row);
    } else {
      var c :| c in s.base && Get(before, c) != Get(row, c);
      assert c in s.Settable();
    }
  }

  /** The images an update is recorded with: both rows, restricted to the same columns. */
  ghost predicate UpdateImages(s: Schema, before: Row, row: Row, was: Row, now: Row) {
    && was.Keys == now.Keys <= s.Columns()
    && (forall k | k in was :: k in before && was[k] == before[k])
    && (forall k | k in now :: k in row && now[k] == row[k])
    && (forall k | k in before && before[k] != Get(row, k) :: k in was)
    && was.Keys * s.Settable() != {}
  }

  lemma WholeImages(s: Schema, before: Row, row: Row)
    requires before.Keys == row.Keys == s.Columns() && s.Settable() != {} && s.Valid()
    ensures UpdateImages(s, before, row, before, row)
  {
    assert before.Keys * s.Settable() == s.Settable();
  }

  lemma MovedImages(s: Schema, before: Row, row: Row)
    requires before.Keys == row.Keys == s.Columns()
    requires exists c :: c in s.Settable() && c in before && c in row && before[c] != row[c]
    ensures var moved := Changed(before, row);
            moved != {} && UpdateImages(s, before, row, Restrict(before, moved), Restrict(row, moved))
  {
    var moved := Changed(before, row);
    var m :| m in s.Settable() && m in before && m in row && before[m] != row[m];
    assert m in moved;
    assert Restrict(row, moved).Keys == moved == Restrict(before, moved).Keys;
    assert m in Restrict(before, moved).Keys * s.Settable();
  }

  lemma CapturedUpdateIsFaithful(cat: Catalog, db: Db, w: Write, full: bool, keepNoOp: bool, id: nat)
    requires w.Upd? && Legal(cat, db, w)
    requires cat[w.id.table].Valid() && cat[w.id.table].ValidRow(db[w.id])
    requires keepNoOp ==> cat[w.Table()].Settable() != {}
    ensures var c := Captured(cat, db, w, full, keepNoOp, id);
            if c.None? then w.row == db[w.id]
            else Faithful(cat, db, w, c.value) && ExactOld(db, w, c.value)
  {
    var s, before, row := cat[w.id.table], db[w.id], w.row;
    ValidRowKeys(s, before);
    ValidRowKeys(s, row);
    var c := Captured(cat, db, w, full, keepNoOp, id);
    if row == before {
      assert Changed(before, row) == {};
      if c.Some? { WholeImages(s, before, row); }
    } else {
      UpdateMovesSettable(s, before, row);
      MovedImages(s, before, row);
      if full { WholeImages(s, before, row); }
    }
    assert c.Some? ==> UpdateImages(s, before, row, c.value.oldRow.value, c.value.newRow.value);
  }

  lemma RestrictIs(row: Row, cols: set<string>)
    ensures forall k :: k in Restrict(row, cols) <==> k in row && k in cols
    ensures forall k | k in Restrict(row, cols) :: Restrict(row, cols)[k] == row[k]
  {
  }

  lemma UpdateFollowsMode(cat: Catalog, db: Db, w: Write, full: bool, keepNoOp: bool, id: nat)
    requires w.Upd? && w.Table() in cat && w.id in db
    ensures FollowsMode(db[w.id], w.row, full, keepNoOp, Captured(cat, db, w, full, keepNoOp, id))
  {
    var before, row := db[w.id], w.row;
    var moved := Changed(before, row);
    assert forall k :: k in moved <==> k in row && Get(before, k) != row[k];
    RestrictIs(before, moved);
    RestrictIs(row, moved);
  }

  /** The row trigger records every write faithfully and exactly, and as its mode asks. */
  lemma TriggerIsFaithful(cat: Catalog, db: Db, w: Write, full: bool, keepNoOp: bool, id: nat)
    requires ValidDb(cat, db) && Legal(cat, db, w)
    requires keepNoOp ==> cat[w.Table()].Settable() != {}
    ensures var c := Captured(cat, db, w, full, keepNoOp, id);
            Recorded(cat, db, Entry(w, c)) && (c.Some? ==> ExactOld(db, w, c.value))
    ensures w.Upd? ==> FollowsMode(db[w.id], w.row, full, keepNoOp, Captured(cat, db, w, full, keepNoOp, id))
  {
    hide FollowsMode;
    if w.Upd? {
      CapturedUpdateIsFaithful(cat, db, w, full, keepNoOp, id);
      UpdateFollowsMode(cat, db, w, full, keepNoOp, id);
    }
  }

  lemma WrittenIsValid(cat: Catalog, db: Db, w: Write)
    requires ValidDb(cat, db) && Legal(cat, db, w)
    ensures ValidDb(cat, Written(cat, db, w))
  {
    match w
    case Ins(_, row) => PutKeepsValid(cat, db, Target(cat, w), row);
    case Del(id) => RemoveKeepsValid(cat, db, id);
    case Upd(id, row) =>
      RemoveKeepsValid(cat, db, id);
      PutKeepsValid(cat, db - {id}, Target(cat, w), row);
  }

  lemma {:induction false} EndIsValid(cat: Catalog, db: Db, es: seq<Entry>)
    requires ValidDb(cat, db) && History(cat, db, es)
    ensures ValidDb(cat, End(cat, db, es))
    decreases |es|
  {
    if es != [] {
      var n := |es| - 1;
      EndIsValid(cat, db, es[..n]);
      WrittenIsValid(cat, End(cat, db, es[..n]), es[n].write);
    }
  }

  /** A run can be cut anywhere: the rest is a run from where the first part ended. */
  lemma {:induction false} HistoryConcat(cat: Catalog, db: Db, a: seq<Entry>, b: seq<Entry>)
    ensures History(cat, db, a + b) <==> History(cat, db, a) && History(cat, End(cat, db, a), b)
    ensures History(cat, db, a + b) ==> End(cat, db, a + b) == End(cat, End(cat, db, a), b)
    decreases |b|
  {
    if b == [] {
      assert a + b == a;
    } else {
      var n := |b| - 1;
      assert (a + b)[..|a| + n] == a + b[..n] && (a + b)[|a| + n] == b[n];
      HistoryConcat(cat, db, a, b[..n]);
    }
  }

  lemma HistorySnoc(cat: Catalog, db: Db, es: seq<Entry>, e: Entry)
    requires History(cat, db, es) && Extends(cat, End(cat, db, es), e)
    ensures History(cat, db, es + [e])
    ensures End(cat, db, es + [e]) == Written(cat, End(cat, db, es), e.write)
    ensures Log(es + [e]) == Log(es) + if e.change.Some? then [e.change.value] else []
  {
    assert (es + [e])[..|es|] == es;
  }

  lemma {:induction false} LogConcat(a: seq<Entry>, b: seq<Entry>)
    ensures Log(a + b) == Log(a) + Log(b)
    decreases |b|
  {
    if b == [] {
      assert a + b == a;
    } else {
      var n := |b| - 1;
      assert (a + b)[..|a| + n] == a + b[..n] && (a + b)[|a| + n] == b[n];
      LogConcat(a, b[..n]);
    }
  }
}
