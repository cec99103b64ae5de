/** Undo inverts capture. */
module Inverse {
  import opened Options
  import opened Tables
  import opened Statements
  import opened Capture
  import opened Plan

  /** Every step of a plan took effect: nothing was skipped, nothing found already done. */
  predicate Clean(o: Outcome) {
    o.Done? && forall i | 0 <= i < |o.statuses| :: o.statuses[i] == Applied
  }

  lemma UndoInsertInverts(cat: Catalog, db: Db, w: Write, c: Change)
    requires w.Ins? && Legal(cat, db, w) && cat[w.table].Valid() && Faithful(cat, db, w, c)
    ensures PlanStep(cat, c, false).Planned?
    ensures var st := PlanStep(cat, c, false).stmt;
            st.Table() in cat && Exec(cat, Written(cat, db, w), st) == Hit(db)
  {
    var s := cat[w.table];
    ValidRowKeys(s, w.row);
    KeyOfKey(s, w.row);
    HoldsAgreeing(w.row, c.newRow.value - s.derived);
    assert Written(cat, db, w) - {Target(cat, w)} == db;
  }

  lemma UndoDeleteInverts(cat: Catalog, db: Db, w: Write, c: Change)
    requires w.Del? && Legal(cat, db, w) && Faithful(cat, db, w, c)
    requires cat[w.id.table].Valid() && cat[w.id.table].ValidRow(db[w.id]) && cat[w.id.table].Key(db[w.id]) == w.id.key
    ensures PlanStep(cat, c, false).Planned?
    ensures var st := PlanStep(cat, c, false).stmt;
            st.Table() in cat && Exec(cat, Written(cat, db, w), st) == Hit(db)
  {
    var s, row, img := cat[w.id.table], db[w.id], c.oldRow.value;
    ValidRowKeys(s, row);
    SameStoredSameRow(s, img, row);
    assert (db - {w.id})[w.id := row] == db;
  }

  /** Assigning the captured columns back gives the row before the update. */
  lemma AssignBack(s: Schema, before: Row, after: Row, img: Row)
    requires s.Valid() && s.ValidRow(before) && s.ValidRow(after)
    requires Agrees(s, img, before)
    requires forall k | k in s.base && Get(before, k) != Get(after, k) :: k in img
    requires forall c | c in s.always :: Get(after, c) == Get(before, c)
    ensures Assign(s, after, img.Keys * s.Settable(), img) == before
  {
    var cols := img.Keys * s.Settable();
    var merged := after + map c | c in cols :: Get(img, c);
    ValidRowKeys(s, before);
    ValidRowKeys(s, after);
    forall c | c in s.base ensures Get(merged, c) == Get(before, c) {
      if c in cols { assert merged[c] == img[c]; } else { assert merged[c] == after[c]; }
    }
    SameStoredSameRow(s, merged, before);
  }

  /** Running the reversing UPDATE moves the row back to the key it had. */
  lemma UpdateBackHits(cat: Catalog, db: Db, id: RowId, target: RowId, row: Row, cols: set<string>, img: Row, guard: Row)
    requires id.table in cat && id.table == target.table && id in db && (target == id || target !in db)
    requires cat[id.table].Key(db[id]) == id.key && !NullInKey(id.key)
    requires Assign(cat[id.table], row, cols, img) == db[id] && Holds(row, guard)
    ensures Exec(cat, (db - {id})[target := row], UpdateStmt(target, cols, img, Some(guard))) == Hit(db)
  {
    var after := (db - {id})[target := row];
    assert (after - {target})[id := db[id]] == db;
  }

  /** The statement planned for reversing an update. */
  lemma UndoUpdatePlan(cat: Catalog, db: Db, w: Write, c: Change)
    requires w.Upd? && Legal(cat, db, w) && Faithful(cat, db, w, c) && cat[w.id.table].Valid()
    ensures var s, img := cat[w.id.table], c.oldRow.value;
            PlanStep(cat, c, false) ==
              Planned(UpdateStmt(Target(cat, w), img.Keys * s.Settable(), img, Some(c.newRow.value - s.derived)))
  {
    KeyOfKey(cat[w.id.table], w.row);
  }

  lemma UndoUpdateInverts(cat: Catalog, db: Db, w: Write, c: Change)
    requires w.Upd? && Legal(cat, db, w) && Faithful(cat, db, w, c)
    requires cat[w.id.table].Valid() && cat[w.id.table].ValidRow(db[w.id]) && cat[w.id.table].Key(db[w.id]) == w.id.key
    ensures PlanStep(cat, c, false).Planned?
    ensures var st := PlanStep(cat, c, false).stmt;
            st.Table() in cat && Exec(cat, Written(cat, db, w), st) == Hit(db)
  {
    var s, row, img, guard := cat[w.id.table], w.row, c.oldRow.value, c.newRow.value - cat[w.id.table].derived;
    var cols := img.Keys * s.Settable();
    UndoUpdatePlan(cat, db, w, c);
    assert Holds(row, guard) by {
      ValidRowKeys(s, row);
      HoldsAgreeing(row, guard);
    }
    AssignBack(s, db[w.id], row, img);
    assert !NullInKey(w.id.key);
    UpdateBackHits(cat, db, w.id, Target(cat, w), row, cols, img, guard);
  }

  /** The undo of one recorded write puts back exactly the tables before it. */
  lemma UndoStepInverts(cat: Catalog, db: Db, w: Write, c: Change)
    requires ValidDb(cat, db) && Legal(cat, db, w) && Faithful(cat, db, w, c)
    ensures PlanStep(cat, c, false).Planned?
    ensures var st := PlanStep(cat, c, false).stmt;
            st.Table() in cat && Exec(cat, Written(cat, db, w), st) == Hit(db)
  {
    match w
    case Ins(_, _) => UndoInsertInverts(cat, db, w, c);
    case Del(_) => UndoDeleteInverts(cat, db, w, c);
    case Upd(_, _) => UndoUpdateInverts(cat, db, w, c);
  }

  lemma UnrecordedChangesNothing(cat: Catalog, db: Db, e: Entry)
    requires ValidDb(cat, db) && Legal(cat, db, e.write) && Recorded(cat, db, e) && e.change.None?
    ensures Written(cat, db, e.write) == db
  {
    assert (db - {e.write.id})[e.write.id := db[e.write.id]] == db;
  }

  /** The two ways a run grows by one entry. */
  lemma LastEntry(cat: Catalog, start: Db, es: seq<Entry>) returns (mid: Db)
    requires es != [] && ValidDb(cat, start) && History(cat, start, es)
    ensures var pre, e := es[..|es| - 1], es[|es| - 1];
            && History(cat, start, pre) && mid == End(cat, start, pre) && ValidDb(cat, mid)
            && Extends(cat, mid, e) && End(cat, start, es) == Written(cat, mid, e.write)
            && Log(es) == (if e.change.Some? then Log(pre) + [e.change.value] else Log(pre))
            && (e.change.None? ==> End(cat, start, es) == mid)
            && e.write.Table() in cat
  {
    mid := End(cat, start, es[..|es| - 1]);
    EndIsValid(cat, start, es[..|es| - 1]);
    if es[|es| - 1].change.None? { UnrecordedChangesNothing(cat, mid, es[|es| - 1]); }
  }

  lemma UndoOneMore(cat: Catalog, mid: Db, w: Write, c: Change, older: seq<Change>, skip: bool)
    requires ValidDb(cat, mid) && Legal(cat, mid, w) && Faithful(cat, mid, w, c)
    requires PlanFor(cat, Reverse(older), false).Steps?
    ensures PlanFor(cat, Reverse(older + [c]), false).Steps?
    ensures var rest, all := Undo(cat, mid, older, skip), Undo(cat, Written(cat, mid, w), older + [c], skip);
            all == Then([Applied], rest) && (Clean(rest) ==> Clean(all))
  {
    hide PlanStep, PlanFor, Undo, Exec, Reverse, ValidDb, Faithful;
    UndoStepInverts(cat, mid, w, c);
    UndoNewest(cat, Written(cat, mid, w), older, c, skip);
  }

  /**
   * Undoing a whole run, newest change first, meets no conflict and returns
   * exactly the tables it started from: inserts, deletes, captured truncates
   * (which are logged as deletes), key-changing updates, in any mix of
   * captured columns, full images and archive images.
   */
  lemma {:induction false} UndoInvertsHistory(cat: Catalog, start: Db, es: seq<Entry>, skip: bool)
    requires ValidDb(cat, start) && History(cat, start, es)
    ensures PlanFor(cat, Reverse(Log(es)), false).Steps?
    ensures var o := Undo(cat, End(cat, start, es), Log(es), skip);
            Clean(o) && o.db == start
    decreases |es|
  {
    if es != [] {
      hide PlanFor, Undo, Reverse, ValidDb, Faithful, Legal, Clean;
      var mid := LastEntry(cat, start, es);
      var pre, e := es[..|es| - 1], es[|es| - 1];
      UndoInvertsHistory(cat, start, pre, skip);
      if e.change.Some? { UndoOneMore(cat, mid, e.write, e.change.value, Log(pre), skip); }
    }
  }
}
