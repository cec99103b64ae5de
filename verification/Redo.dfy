/** The writes of an undo or replay are captured like any other. */
module Redo {
  import opened Tables
  import opened Statements
  import opened Capture
  import opened Plan
  import opened Inverse

  /** Per-table update_mode = 'full', and capture_no_op_updates. */
  datatype Modes = Modes(full: set<string>, keepNoOp: bool)

  /** Keeping no-op updates needs a column undo may assign. */
  ghost predicate UsableModes(cat: Catalog, m: Modes) {
    m.keepNoOp ==> forall t | t in cat :: cat[t].Settable() != {}
  }

  /** The row write a statement that took effect amounts to. */
  function WriteOf(cat: Catalog, db: Db, st: Stmt): Write
    requires st.Table() in cat && Exec(cat, db, st).Hit?
  {
    var s := cat[st.Table()];
    match st
    case InsertStmt(table, img) => Ins(table, s.Fill(img))
    case DeleteStmt(id, _) => Del(id)
    case UpdateStmt(id, cols, img, _) => Upd(id, Assign(s, db[id], cols, img))
  }

  /** Statements `_plan` builds assign only columns that may be assigned. */
  ghost predicate Assignable(cat: Catalog, st: Stmt) {
    st.Table() in cat && (st.UpdateStmt? ==> st.cols <= cat[st.Table()].Settable())
  }

  lemma PlannedIsAssignable(cat: Catalog, c: Change, replay: bool)
    ensures PlanStep(cat, c, replay).Planned? ==> Assignable(cat, PlanStep(cat, c, replay).stmt)
  {
  }

  lemma {:induction false} PlanIsAssignable(cat: Catalog, cs: seq<Change>, replay: bool)
    ensures var p := PlanFor(cat, cs, replay);
            p.Steps? ==> forall i | 0 <= i < |p.stmts| :: Assignable(cat, p.stmts[i])
    decreases |cs|
  {
    var p := PlanFor(cat, cs, replay);
    if cs != [] && p.Steps? {
      var n := |cs| - 1;
      PlanIsAssignable(cat, cs[..n], replay);
      PlannedIsAssignable(cat, cs[n], replay);
      forall i | 0 <= i < |p.stmts| ensures Assignable(cat, p.stmts[i]) {
        if i < n { assert p.stmts[i] == PlanFor(cat, cs[..n], replay).stmts[i]; }
      }
    }
  }

  lemma UpdateWriteIsLegal(cat: Catalog, db: Db, st: Stmt)
    requires st.UpdateStmt? && Assignable(cat, st) && Exec(cat, db, st).Hit?
    requires cat[st.id.table].Valid() && cat[st.id.table].Key(db[st.id]) == st.id.key && db[st.id].Keys == cat[st.id.table].Columns()
    ensures Legal(cat, db, WriteOf(cat, db, st)) && Exec(cat, db, st).db == Written(cat, db, WriteOf(cat, db, st))
  {
    var s, row := cat[st.id.table], db[st.id];
    AssignIsFill(s, row, st.cols, st.img);
    var after := Assign(s, row, st.cols, st.img);
    FillKeepsStored(s, row + map c | c in st.cols :: Get(st.img, c));
    forall c | c in s.always ensures Get(after, c) == Get(row, c) {
      assert c !in st.cols;
    }
  }

  lemma InsertWriteIsLegal(cat: Catalog, db: Db, st: Stmt)
    requires st.InsertStmt? && Assignable(cat, st) && Exec(cat, db, st).Hit? && cat[st.table].Valid()
    ensures Legal(cat, db, WriteOf(cat, db, st)) && Exec(cat, db, st).db == Written(cat, db, WriteOf(cat, db, st))
  {
    FilledRowIsValid(cat[st.table], st.img);
  }

  /** A statement that takes effect is an ordinary write. */
  lemma WriteIsLegal(cat: Catalog, db: Db, st: Stmt)
    requires ValidDb(cat, db) && Assignable(cat, st) && Exec(cat, db, st).Hit?
    ensures Legal(cat, db, WriteOf(cat, db, st)) && Exec(cat, db, st).db == Written(cat, db, WriteOf(cat, db, st))
  {
    match st
    case InsertStmt(_, _) => InsertWriteIsLegal(cat, db, st);
    case DeleteStmt(_, _) =>
    case UpdateStmt(id, _, _, _) =>
      ValidRowKeys(cat[id.table], db[id]);
      UpdateWriteIsLegal(cat, db, st);
  }

  /** What the row trigger records for one executed statement. */
  function RecordOf(cat: Catalog, db: Db, st: Stmt, m: Modes, id: nat): Entry
    requires st.Table() in cat && Exec(cat, db, st).Hit?
  {
    var w := WriteOf(cat, db, st);
    Entry(w, Captured(cat, db, w, st.Table() in m.full, m.keepNoOp, id))
  }

  /** The run of captured writes an apply loop makes; `next` is the first change id. */
  function RecordedRun(cat: Catalog, db: Db, stmts: seq<Stmt>, skip: bool, replay: bool, m: Modes, next: nat): seq<Entry>
    requires Known(cat, stmts) && Apply(cat, db, stmts, skip, replay).Done?
    decreases |stmts|
  {
    if stmts == [] then []
    else
      var n := |stmts| - 1;
      var earlier := RecordedRun(cat, db, stmts[..n], skip, replay, m, next);
      var before := Apply(cat, db, stmts[..n], skip, replay).db;
      earlier + Recording(cat, before, stmts[n], m, next + |Log(earlier)|)
  }

  /** A statement that missed fires no trigger. */
  function Recording(cat: Catalog, db: Db, st: Stmt, m: Modes, id: nat): seq<Entry>
    requires st.Table() in cat
  {
    if Exec(cat, db, st).Hit? then [RecordOf(cat, db, st, m, id)] else []
  }

  lemma RecordingExtends(cat: Catalog, start: Db, es: seq<Entry>, st: Stmt, m: Modes, id: nat, skip: bool, replay: bool)
    requires History(cat, start, es) && ValidDb(cat, End(cat, start, es))
    requires UsableModes(cat, m) && Assignable(cat, st)
    requires Step(cat, End(cat, start, es), st, skip, replay).Some?
    ensures var more := es + Recording(cat, End(cat, start, es), st, m, id);
            History(cat, start, more) &&
            End(cat, start, more) == Step(cat, End(cat, start, es), st, skip, replay).value.0
  {
    var before := End(cat, start, es);
    if Exec(cat, before, st).Hit? {
      RecordExtends(cat, before, st, m, id);
      HistorySnoc(cat, start, es, RecordOf(cat, before, st, m, id));
    } else {
      assert es + [] == es;
    }
  }

  lemma {:induction false} RecordedRunIsHistory(cat: Catalog, db: Db, stmts: seq<Stmt>, skip: bool, replay: bool, m: Modes, next: nat)
    requires ValidDb(cat, db) && Known(cat, stmts) && UsableModes(cat, m)
    requires forall i | 0 <= i < |stmts| :: Assignable(cat, stmts[i])
    requires Apply(cat, db, stmts, skip, replay).Done?
    ensures var es := RecordedRun(cat, db, stmts, skip, replay, m, next);
            History(cat, db, es) && End(cat, db, es) == Apply(cat, db, stmts, skip, replay).db
    decreases |stmts|
  {
    hide Extends, Step, ValidDb, UsableModes, Recording, Log, Written;
    if stmts != [] {
      var n := |stmts| - 1;
      RecordedRunIsHistory(cat, db, stmts[..n], skip, replay, m, next);
      ApplyKeepsValid(cat, db, stmts[..n], skip, replay);
      var earlier := RecordedRun(cat, db, stmts[..n], skip, replay, m, next);
      var id := next + |Log(earlier)|;
      RecordingExtends(cat, db, earlier, stmts[n], m, id, skip, replay);
      assert RecordedRun(cat, db, stmts, skip, replay, m, next)
          == earlier + Recording(cat, End(cat, db, earlier), stmts[n], m, id);
    }
  }

  lemma RecordExtends(cat: Catalog, db: Db, st: Stmt, m: Modes, id: nat)
    requires ValidDb(cat, db) && UsableModes(cat, m) && Assignable(cat, st) && Exec(cat, db, st).Hit?
    ensures Extends(cat, db, RecordOf(cat, db, st, m, id))
    ensures Written(cat, db, RecordOf(cat, db, st, m, id).write) == Exec(cat, db, st).db
  {
    WriteIsLegal(cat, db, st);
    TriggerIsFaithful(cat, db, WriteOf(cat, db, st), st.Table() in m.full, m.keepNoOp, id);
  }

  /**
   * An undo can itself be undone: whatever selection was undone or replayed, on
   * whatever tables, with or without skips, undoing the changes that operation
   * logged returns the tables it found.
   */
  lemma UndoOfUndo(cat: Catalog, db: Db, cs: seq<Change>, skip: bool, replay: bool, m: Modes, next: nat)
    requires ValidDb(cat, db) && UsableModes(cat, m) && RunPlan(cat, db, cs, replay, skip).Done?
    ensures var stmts := PlanFor(cat, cs, replay).stmts;
            var logged := Log(RecordedRun(cat, db, stmts, skip, replay, m, next));
            var o := Undo(cat, RunPlan(cat, db, cs, replay, skip).db, logged, false);
            Clean(o) && o.db == db
  {
    hide Undo, Apply, PlanFor, Log, RecordedRun, UsableModes, Assignable, ValidDb;
    PlanIsAssignable(cat, cs, replay);
    var stmts := PlanFor(cat, cs, replay).stmts;
    RecordedRunIsHistory(cat, db, stmts, skip, replay, m, next);
    UndoInvertsHistory(cat, db, RecordedRun(cat, db, stmts, skip, replay, m, next), false);
  }
}
