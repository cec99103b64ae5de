/** A plan run on tables that moved on: what it writes and what it leaves alone. */
module Window {
  import opened Options
  import opened Json
  import opened Tables
  import opened Statements
  import opened Capture
  import opened Plan
  import opened Inverse

  /** One column of one row; None when the row is not there. */
  ghost function Cell(db: Db, id: RowId, c: string): Option<Json> {
    if id in db && c in db[id] then Some(db[id][c]) else None
  }

  ghost predicate StoredCell(cat: Catalog, id: RowId, c: string) {
    id.table in cat && c in cat[id.table].base
  }

  /** The row a statement writes or removes, by the key it ends up under. */
  function Lands(cat: Catalog, st: Stmt): RowId
    requires st.Table() in cat
  {
    var s := cat[st.Table()];
    match st
    case InsertStmt(table, img) => RowId(table, s.Key(img))
    case DeleteStmt(id, _) => id
    case UpdateStmt(id, cols, img, _) =>
      RowId(id.table, map c | c in s.pk :: if c in cols then Get(img, c) else Get(id.key, c))
  }

  /** The columns of the row at `id` that a plan has written by its end. */
  function Touched(cat: Catalog, stmts: seq<Stmt>, id: RowId): set<string>
    requires Known(cat, stmts)
    decreases |stmts|
  {
    if stmts == [] then {}
    else
      var n := |stmts| - 1;
      var pre, st := stmts[..n], stmts[n];
      var base := cat[st.Table()].base;
      if id == Lands(cat, st) then
        if st.UpdateStmt? then Touched(cat, pre, st.id) + st.cols else base
      else if st.UpdateStmt? && id == st.id then base   // the row left this key
      else Touched(cat, pre, id)
  }

  /** Where the row found at `id` after a plan was before it. */
  function Origin(cat: Catalog, stmts: seq<Stmt>, id: RowId): RowId
    requires Known(cat, stmts)
    decreases |stmts|
  {
    if stmts == [] then id
    else
      var n := |stmts| - 1;
      var pre, st := stmts[..n], stmts[n];
      Origin(cat, pre, if st.UpdateStmt? && id == Lands(cat, st) then st.id else id)
  }

  /** One statement, cell by cell. */
  ghost function CellAfter(cat: Catalog, db: Db, st: Stmt, id: RowId, c: string): Option<Json>
    requires st.Table() in cat
  {
    if id == Lands(cat, st) then
      match st
      case InsertStmt(_, img) => Some(Get(img, c))
      case DeleteStmt(_, _) => None
      case UpdateStmt(from, cols, img, _) => if c in cols then Some(Get(img, c)) else Cell(db, from, c)
    else if st.UpdateStmt? && id == st.id then None
    else Cell(db, id, c)
  }

  /** The part of validity that addressing needs. */
  ghost predicate Keyed(s: Schema, id: RowId, row: Row) {
    row.Keys == s.Columns() && id.key.Keys == s.pk && forall c | c in s.pk :: c in row && row[c] == id.key[c]
  }

  lemma ValidRowIsKeyed(cat: Catalog, db: Db, id: RowId)
    requires ValidDb(cat, db) && id in db
    ensures id.table in cat && cat[id.table].Valid() && Keyed(cat[id.table], id, db[id])
  {
    var s := cat[id.table];
    ValidRowKeys(s, db[id]);
    forall c | c in s.pk ensures c in db[id] && db[id][c] == id.key[c] {
      assert s.Key(db[id])[c] == Get(db[id], c);
    }
  }

  /** The stored columns an UPDATE leaves, and the key it leaves them under. */
  lemma UpdateLands(s: Schema, table: string, id: RowId, row: Row, cols: set<string>, img: Row)
    requires s.Valid() && Keyed(s, id, row)
    ensures var after := Assign(s, row, cols, img);
            && s.Key(after) == (map c | c in s.pk :: if c in cols then Get(img, c) else Get(id.key, c))
            && forall c | c in s.base :: c in after && after[c] == if c in cols then Get(img, c) else row[c]
  {
    var merged := row + map c | c in cols :: Get(img, c);
    var after := s.Fill(merged);
    forall c | c in s.base ensures c in after && after[c] == if c in cols then Get(img, c) else row[c] {
      assert s.Stored(merged)[c] == Get(merged, c);
    }
  }

  /** A statement took effect, or was a delete whose row was already gone. */
  ghost predicate Moves(cat: Catalog, before: Db, st: Stmt, after: Db)
    requires st.Table() in cat
  {
    Exec(cat, before, st) == Hit(after) || (st.DeleteStmt? && st.id !in before && after == before)
  }

  lemma UpdateCell(cat: Catalog, db: Db, st: Stmt, id: RowId, c: string)
    requires st.UpdateStmt? && st.Table() in cat && StoredCell(cat, id, c)
    requires cat[st.id.table].Valid() && (st.id in db ==> Keyed(cat[st.id.table], st.id, db[st.id]))
    requires Exec(cat, db, st).Hit?
    ensures Cell(Exec(cat, db, st).db, id, c) == CellAfter(cat, db, st, id, c)
  {
    var s, row := cat[st.id.table], db[st.id];
    UpdateLands(s, st.id.table, st.id, row, st.cols, st.img);
    var after := Assign(s, row, st.cols, st.img);
    assert RowId(st.id.table, s.Key(after)) == Lands(cat, st);
    assert Exec(cat, db, st).db == (db - {st.id})[Lands(cat, st) := after];
  }

  lemma InsertCell(cat: Catalog, db: Db, st: Stmt, id: RowId, c: string)
    requires st.InsertStmt? && st.Table() in cat && cat[st.table].Valid() && StoredCell(cat, id, c)
    requires Exec(cat, db, st).Hit?
    ensures Cell(Exec(cat, db, st).db, id, c) == CellAfter(cat, db, st, id, c)
  {
    var s := cat[st.table];
    if id == Lands(cat, st) {
      assert s.Stored(st.img)[c] == Get(st.img, c);
    }
  }

  lemma MovesCell(cat: Catalog, db: Db, st: Stmt, after: Db, id: RowId, c: string)
    requires st.Table() in cat && ValidDb(cat, db) && Moves(cat, db, st, after)
    requires StoredCell(cat, id, c)
    ensures Cell(after, id, c) == CellAfter(cat, db, st, id, c)
  {
    match st
    case InsertStmt(_, _) =>
      hide Exec;
      InsertCell(cat, db, st, id, c);
    case DeleteStmt(_, _) =>
    case UpdateStmt(from, _, _, _) =>
      hide Exec, CellAfter;
      if from in db { ValidRowIsKeyed(cat, db, from); }
      UpdateCell(cat, db, st, id, c);
  }

  /** `x` and `p` agree wherever the plan wrote, and elsewhere `x` is as it was. */
  ghost predicate InStep(cat: Catalog, x0: Db, x: Db, p: Db, stmts: seq<Stmt>)
    requires Known(cat, stmts)
  {
    forall id, c | StoredCell(cat, id, c) ::
      Cell(x, id, c) ==
        if c in Touched(cat, stmts, id) then Cell(p, id, c)
        else Cell(x0, Origin(cat, stmts, id), c)
  }

  /** The row a cell comes from, one statement back. */
  function Before(cat: Catalog, st: Stmt, id: RowId): RowId
    requires st.Table() in cat
  {
    if st.UpdateStmt? && id == Lands(cat, st) then st.id else id
  }

  lemma StaysInStepAt(cat: Catalog, x0: Db, x: Db, p: Db, stmts: seq<Stmt>, x': Db, p': Db, id: RowId, c: string)
    requires stmts != [] && Known(cat, stmts) && StoredCell(cat, id, c)
    requires var pre, st := stmts[..|stmts| - 1], stmts[|stmts| - 1];
             var from := Before(cat, st, id);
             && Known(cat, pre)
             && Cell(x', id, c) == CellAfter(cat, x, st, id, c)
             && Cell(p', id, c) == CellAfter(cat, p, st, id, c)
             && Cell(x, from, c) ==
                  if c in Touched(cat, pre, from) then Cell(p, from, c) else Cell(x0, Origin(cat, pre, from), c)
    ensures Cell(x', id, c) ==
            if c in Touched(cat, stmts, id) then Cell(p', id, c) else Cell(x0, Origin(cat, stmts, id), c)
  {
  }

  lemma StaysInStep(cat: Catalog, x0: Db, x: Db, p: Db, stmts: seq<Stmt>, x': Db, p': Db)
    requires stmts != [] && Known(cat, stmts) && Known(cat, stmts[..|stmts| - 1])
    requires ValidDb(cat, x) && ValidDb(cat, p) && InStep(cat, x0, x, p, stmts[..|stmts| - 1])
    requires Moves(cat, x, stmts[|stmts| - 1], x') && Moves(cat, p, stmts[|stmts| - 1], p')
    ensures InStep(cat, x0, x', p', stmts)
  {
    var st := stmts[|stmts| - 1];
    forall id, c | StoredCell(cat, id, c)
      ensures Cell(x', id, c) ==
        if c in Touched(cat, stmts, id) then Cell(p', id, c) else Cell(x0, Origin(cat, stmts, id), c)
    {
      MovesCell(cat, x, st, x', id, c);
      MovesCell(cat, p, st, p', id, c);
      assert StoredCell(cat, Before(cat, st, id), c);
      StaysInStepAt(cat, x0, x, p, stmts, x', p', id, c);
    }
  }

  /**
   * The same plan run to the end, without skips, from two different states:
   * every cell it wrote ends equal in both, and every other cell of the second
   * state is carried over unchanged, following its row when the row moved.
   */
  lemma {:induction false} RunsInStep(cat: Catalog, p0: Db, x0: Db, stmts: seq<Stmt>, replay: bool)
    requires Known(cat, stmts) && ValidDb(cat, p0) && ValidDb(cat, x0)
    requires Apply(cat, p0, stmts, false, replay).Done? && Apply(cat, x0, stmts, false, replay).Done?
    ensures InStep(cat, x0, Apply(cat, x0, stmts, false, replay).db, Apply(cat, p0, stmts, false, replay).db, stmts)
    decreases |stmts|
  {
    if stmts != [] {
      var n := |stmts| - 1;
      RunsInStep(cat, p0, x0, stmts[..n], replay);
      var x, x' := LastStep(cat, x0, stmts, replay);
      var p, p' := LastStep(cat, p0, stmts, replay);
      StaysInStep(cat, x0, x, p, stmts, x', p');
    }
  }

  lemma LastStep(cat: Catalog, db: Db, stmts: seq<Stmt>, replay: bool) returns (before: Db, after: Db)
    requires stmts != [] && Known(cat, stmts) && ValidDb(cat, db)
    requires Apply(cat, db, stmts, false, replay).Done?
    ensures Apply(cat, db, stmts[..|stmts| - 1], false, replay).Done?
    ensures before == Apply(cat, db, stmts[..|stmts| - 1], false, replay).db && ValidDb(cat, before)
    ensures after == Apply(cat, db, stmts, false, replay).db
    ensures Moves(cat, before, stmts[|stmts| - 1], after)
  {
    before := Apply(cat, db, stmts[..|stmts| - 1], false, replay).db;
    after := Apply(cat, db, stmts, false, replay).db;
    ApplyKeepsValid(cat, db, stmts[..|stmts| - 1], false, replay);
  }

  /**
   * Undoing a window W that began in `start`, on whatever the tables have become
   * since: if it goes through, every cell the plan wrote holds its value before W
   * and every other cell its present one.  Key changes are followed.
   */
  lemma WindowedUndo(cat: Catalog, start: Db, es: seq<Entry>, now: Db)
    requires ValidDb(cat, start) && History(cat, start, es) && ValidDb(cat, now)
    ensures var p := PlanFor(cat, Reverse(Log(es)), false);
            p.Steps? &&
            var o := Undo(cat, now, Log(es), false);
            o.Done? ==> ValidDb(cat, o.db) && InStep(cat, now, o.db, start, p.stmts)
  {
    hide PlanFor, Reverse, Apply, InStep, Log;
    UndoInvertsHistory(cat, start, es, false);
    EndIsValid(cat, start, es);
    var stmts := PlanFor(cat, Reverse(Log(es)), false).stmts;
    if Undo(cat, now, Log(es), false).Done? {
      ApplyKeepsValid(cat, now, stmts, false, false);
      RunsInStep(cat, End(cat, start, es), now, stmts, false);
    }
  }
}
