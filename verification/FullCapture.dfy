/** Runs the row trigger captured: what the capture mode makes of their undo, and of as_of. */
module FullCapture {
  import opened Options
  import opened Json
  import opened Tables
  import opened Statements
  import opened Capture
  import opened Plan
  import opened Redo
  import opened AsOf
  import opened AsOfKeys
  import opened AsOfRows

  /** Every write of this run was recorded by the row trigger. */
  ghost predicate ByTrigger(cat: Catalog, db: Db, es: seq<Entry>, m: Modes)
    requires History(cat, db, es)
    decreases |es|
  {
    es == [] ||
    var pre, last := es[..|es| - 1], es[|es| - 1];
    ByTrigger(cat, db, pre, m) && exists id: nat :: TriggerWrote(cat, End(cat, db, pre), last, m, id)
  }

  ghost predicate TriggerWrote(cat: Catalog, db: Db, e: Entry, m: Modes, id: nat)
    requires Legal(cat, db, e.write)
  {
    e.change == Captured(cat, db, e.write, e.write.Table() in m.full, m.keepNoOp, id)
  }

  ghost predicate AllFull(es: seq<Entry>, m: Modes) {
    forall i | 0 <= i < |es| :: es[i].write.Table() in m.full
  }

  lemma OneWhole(cat: Catalog, db: Db, e: Entry, m: Modes, id: nat)
    requires ValidDb(cat, db) && UsableModes(cat, m) && Legal(cat, db, e.write)
    requires TriggerWrote(cat, db, e, m, id) && e.write.Table() in m.full
    ensures e.change.Some? ==> ExactOld(db, e.write, e.change.value) && WholeOld(cat, e.change.value)
  {
    TriggerIsFaithful(cat, db, e.write, true, m.keepNoOp, id);
    if e.write.Upd? { ValidRowKeys(cat[e.write.id.table], db[e.write.id]); }
  }

  /** In mode full every update carries the whole row it found. */
  lemma {:induction false} FullModeIsWhole(cat: Catalog, db: Db, es: seq<Entry>, m: Modes)
    requires ValidDb(cat, db) && UsableModes(cat, m) && History(cat, db, es)
    requires ByTrigger(cat, db, es, m) && AllFull(es, m)
    ensures ExactHistory(cat, db, es) && FullOld(cat, es)
    decreases |es|
  {
    hide ValidDb, Legal, Recorded, Captured, ExactOld, WholeOld, UsableModes, Written;
    if es != [] {
      var n := |es| - 1;
      FullModeIsWhole(cat, db, es[..n], m);
      EndIsValid(cat, db, es[..n]);
      var id: nat :| TriggerWrote(cat, End(cat, db, es[..n]), es[n], m, id);
      OneWhole(cat, End(cat, db, es[..n]), es[n], m, id);
    }
  }

  /** So for runs captured in mode full both questions about as_of are answered by the log and the keys alone. */
  lemma FullModeAsOfIff(cat: Catalog, start: Db, es: seq<Entry>, m: Modes, id: RowId, table: string)
    requires ValidDb(cat, start) && UsableModes(cat, m) && History(cat, start, es)
    requires ByTrigger(cat, start, es, m) && AllFull(es, m)
    ensures Whole(cat, Log(es))
    ensures RightFor(End(cat, start, es), Log(es), start, id) <==> OldestKeeps(cat, es, id)
    ensures ReturnsRows(cat, table, AsOfTable(End(cat, start, es), Log(es), table), TableAt(start, table)) <==>
            SamePicks(cat, Log(es), table)
  {
    hide *;
    FullModeIsWhole(cat, start, es, m);
    LogIsWhole(cat, start, es);
    FullRowIff(cat, start, es, id);
    AsOfRowsIff(cat, start, es, table);
  }

  // ---- What a guard sees ------------------------------------------------------------------

  /** The columns the undo of a captured update compares: in mode full all stored ones, else those that moved. */
  predicate Compared(s: Schema, before: Row, row: Row, full: bool, k: string) {
    k in s.base && (full || Get(before, k) != Get(row, k))
  }

  /**
   * The undo of a captured update finds a row in conflict if and only if a column it
   * compares no longer shows the captured value.  In mode full that is any column; in
   * mode changed a later change of another column goes unnoticed, and is kept.
   */
  lemma UndoGuards(cat: Catalog, db: Db, w: Write, full: bool, keepNoOp: bool, id: nat, live: Row)
    requires ValidDb(cat, db) && Legal(cat, db, w) && w.Upd? && w.row != db[w.id]
    requires cat[w.id.table].ValidRow(live)
    ensures var s, c := cat[w.id.table], Captured(cat, db, w, full, keepNoOp, id);
            c.Some? &&
            var p := PlanStep(cat, c.value, false);
            && p.Planned? && p.stmt.UpdateStmt?
            && (GuardHolds(live, p.stmt.expected) <==>
                  forall k | Compared(s, db[w.id], w.row, full, k) :: Contains(Get(live, k), Get(w.row, k)))
  {
    CapturedUpdate(cat, db, w, full, keepNoOp, id);
    var s, before, row := cat[w.id.table], db[w.id], w.row;
    ValidRowKeys(s, before);
    ValidRowKeys(s, row);
    ValidRowKeys(s, live);
    hide ValidDb, Legal, Captured, PlanStep, Guard, GuardHolds, Compared, Schema.ValidRow;
    var c := Captured(cat, db, w, full, keepNoOp, id);
    PlanOfUpdate(cat, c.value);
    GuardIs(s, before, row, full, c.value.newRow.value, live);
  }

  lemma CapturedUpdate(cat: Catalog, db: Db, w: Write, full: bool, keepNoOp: bool, id: nat)
    requires ValidDb(cat, db) && Legal(cat, db, w) && w.Upd? && w.row != db[w.id]
    ensures var s, c := cat[w.id.table], Captured(cat, db, w, full, keepNoOp, id);
            && s.Valid() && c.Some? && c.value.op == U && c.value.table == w.id.table && c.value.pk == s.Key(w.row)
            && c.value.oldRow.Some? && c.value.newRow.Some?
            && c.value.oldRow.value.Keys <= s.Columns() && c.value.oldRow.value.Keys * s.Settable() != {}
            && c.value.newRow.value.Keys == (if full then w.row.Keys else Changed(db[w.id], w.row))
            && forall k | k in c.value.newRow.value :: c.value.newRow.value[k] == w.row[k]
  {
    var s, before, row := cat[w.id.table], db[w.id], w.row;
    ValidRowKeys(s, before);
    ValidRowKeys(s, row);
    UpdateMovesSettable(s, before, row);
    hide ValidDb, Legal, Schema.ValidRow;
    ImagesOf(s, before, row, full);
  }

  lemma ImagesOf(s: Schema, before: Row, row: Row, full: bool)
    requires s.Valid() && before.Keys == row.Keys == s.Columns()
    requires exists c :: c in s.Settable() && c in before && c in row && before[c] != row[c]
    ensures var moved := Changed(before, row);
            var was, now := if full then before else Restrict(before, moved), if full then row else Restrict(row, moved);
            && moved != {} && was.Keys <= s.Columns() && was.Keys * s.Settable() != {}
            && now.Keys == (if full then row.Keys else moved)
            && forall k | k in now :: now[k] == row[k]
  {
    var moved := Changed(before, row);
    if full { WholeImages(s, before, row); } else { MovedImages(s, before, row); }
    assert moved != {} by { MovedImages(s, before, row); }
    RestrictIs(row, moved);
    hide Restrict;
  }

  lemma PlanOfUpdate(cat: Catalog, c: Change)
    requires c.op == U && c.table in cat && cat[c.table].pk != {} && cat[c.table].pk <= c.pk.Keys
    requires c.oldRow.Some? && c.oldRow.value.Keys <= cat[c.table].Columns()
    requires c.oldRow.value.Keys * cat[c.table].Settable() != {}
    ensures var p := PlanStep(cat, c, false);
            p.Planned? && p.stmt.UpdateStmt? && p.stmt.expected == Guard(cat[c.table], c.newRow)
  {
  }

  lemma GuardIs(s: Schema, before: Row, row: Row, full: bool, img: Row, live: Row)
    requires s.Valid() && before.Keys == row.Keys == live.Keys == s.Columns()
    requires img.Keys == if full then row.Keys else Changed(before, row)
    requires forall k | k in img :: img[k] == row[k]
    ensures GuardHolds(live, Guard(s, Some(img))) <==>
            forall k | Compared(s, before, row, full, k) :: Contains(Get(live, k), Get(row, k))
  {
    var expected := img - s.derived;
    assert forall k :: k in expected <==> Compared(s, before, row, full, k);
    assert forall k | k in expected :: expected[k] == Get(row, k) && Get(live, k) == live[k];
  }
}
