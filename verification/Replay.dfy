/** Replay: the same plan builder and apply loop, walking forwards. */
module Replay {
  import opened Options
  import opened Json
  import opened Tables
  import opened Statements
  import opened Capture
  import opened Plan
  import opened Inverse
  import opened Window
  import opened Conflicts
  import opened Preview

  /** The planned statement finds and leaves its row under the change's own key. */
  ghost predicate InPlace(cat: Catalog, c: Change, st: Stmt)
    requires st.Table() in cat
  {
    Lands(cat, st) == RowOf(c) && (st.UpdateStmt? ==> st.id == RowOf(c))
  }

  /** A change whose replay works on the row its key names, and leaves it there. */
  ghost predicate Placed(cat: Catalog, c: Change) {
    && c.table in cat && c.pk == cat[c.table].Key(c.pk)
    && PlanStep(cat, c, true).Planned? && PlanStep(cat, c, true).stmt.Table() in cat
    && InPlace(cat, c, PlanStep(cat, c, true).stmt)
  }

  lemma ReplayInsertApplies(cat: Catalog, db: Db, w: Write, c: Change)
    requires w.Ins? && Legal(cat, db, w) && Faithful(cat, db, w, c) && cat[w.table].Valid()
    ensures PlanStep(cat, c, true).Planned?
    ensures var st := PlanStep(cat, c, true).stmt;
            st.Table() in cat && Exec(cat, db, st) == Hit(Written(cat, db, w)) && InPlace(cat, c, st)
  {
    SameStoredSameRow(cat[w.table], c.newRow.value, w.row);
    forall k | k in cat[w.table].pk ensures cat[w.table].Key(w.row)[k] == Get(w.row, k) {}
  }

  lemma ReplayDeleteApplies(cat: Catalog, db: Db, w: Write, c: Change)
    requires w.Del? && Legal(cat, db, w) && Faithful(cat, db, w, c)
    requires cat[w.id.table].Valid() && Keyed(cat[w.id.table], w.id, db[w.id])
    ensures PlanStep(cat, c, true).Planned?
    ensures var st := PlanStep(cat, c, true).stmt;
            st.Table() in cat && Exec(cat, db, st) == Hit(Written(cat, db, w)) && InPlace(cat, c, st)
  {
    HoldsAgreeing(db[w.id], c.oldRow.value - cat[w.id.table].derived);
    assert cat[w.id.table].Key(w.id.key) == w.id.key;
  }

  lemma ReplayUpdatePlan(cat: Catalog, db: Db, w: Write, c: Change)
    requires w.Upd? && Legal(cat, db, w) && Faithful(cat, db, w, c) && cat[w.id.table].Valid()
    ensures var s, img := cat[w.id.table], c.newRow.value;
            PlanStep(cat, c, true) ==
              Planned(UpdateStmt(Target(cat, w), img.Keys * s.Settable(), img, Some(c.oldRow.value - s.derived)))
  {
    KeyOfKey(cat[w.id.table], w.row);
  }

  lemma KeyColumnsKept(cat: Catalog, w: Write, img: Row)
    requires w.Upd? && w.id.table in cat && KeepsKey(cat, w) && Agrees(cat[w.id.table], img, w.row)
    requires cat[w.id.table].Valid()
    ensures forall k | k in cat[w.id.table].pk && k in img :: Get(img, k) == w.id.key[k]
  {
    var s := cat[w.id.table];
    forall k | k in s.pk && k in img ensures Get(img, k) == w.id.key[k] {
      assert img[k] == Get(w.row, k) && s.Key(w.row)[k] == Get(w.row, k);
    }
  }

  lemma KeyStays(pk: set<string>, key: Row, cols: set<string>, img: Row)
    requires key.Keys == pk && forall k | k in pk && k in cols :: Get(img, k) == key[k]
    ensures key == map k | k in pk :: if k in cols then Get(img, k) else Get(key, k)
  {
  }

  lemma ReplayUpdateApplies(cat: Catalog, db: Db, w: Write, c: Change)
    requires w.Upd? && Legal(cat, db, w) && Faithful(cat, db, w, c) && KeepsKey(cat, w)
    requires cat[w.id.table].Valid() && cat[w.id.table].ValidRow(db[w.id]) && Keyed(cat[w.id.table], w.id, db[w.id])
    requires !NullInKey(w.id.key)
    ensures PlanStep(cat, c, true).Planned?
    ensures var st := PlanStep(cat, c, true).stmt;
            st.Table() in cat && Exec(cat, db, st) == Hit(Written(cat, db, w)) && InPlace(cat, c, st)
  {
    hide Contains, Exec, NullInKey, PlanStep;
    var s, id, img, guard := cat[w.id.table], w.id, c.newRow.value, c.oldRow.value - cat[w.id.table].derived;
    var cols := img.Keys * s.Settable();
    ReplayUpdatePlan(cat, db, w, c);
    HoldsAgreeing(db[id], guard);
    KeyColumnsKept(cat, w, img);
    AssignBack(s, w.row, db[id], img);
    hide Assign, Holds, Schema.Fill;
    KeyStays(s.pk, id.key, cols, img);
    UpdateHits(cat, db, id, id, cols, img, guard);
    assert (db - {id})[id := w.row] == db[id := w.row];
    UpdateStaysInPlace(cat, c, UpdateStmt(id, cols, img, Some(guard)));
  }

  lemma UpdateStaysInPlace(cat: Catalog, c: Change, st: Stmt)
    requires st.UpdateStmt? && st.Table() in cat && st.id == RowOf(c) && st.id.key.Keys == cat[st.id.table].pk
    requires forall k | k in cat[st.id.table].pk && k in st.cols :: Get(st.img, k) == st.id.key[k]
    ensures InPlace(cat, c, st)
  {
    assert Lands(cat, st).key == st.id.key;
  }

  /** Replaying one recorded write on the tables it was made on makes it again. */
  lemma ReplayStepApplies(cat: Catalog, db: Db, w: Write, c: Change)
    requires ValidDb(cat, db) && Legal(cat, db, w) && Faithful(cat, db, w, c) && KeepsKey(cat, w)
    ensures PlanStep(cat, c, true).Planned?
    ensures var st := PlanStep(cat, c, true).stmt;
            st.Table() in cat && Exec(cat, db, st) == Hit(Written(cat, db, w)) && InPlace(cat, c, st)
  {
    match w
    case Ins(_, _) => ReplayInsertApplies(cat, db, w, c);
    case Del(id) =>
      ValidRowIsKeyed(cat, db, id);
      ReplayDeleteApplies(cat, db, w, c);
    case Upd(id, _) =>
      ValidRowIsKeyed(cat, db, id);
      assert !NullInKey(id.key) by { assert id.key == cat[id.table].Key(db[id]); }
      ReplayUpdateApplies(cat, db, w, c);
  }

  /** Statements that all find and leave their rows in place. */
  ghost predicate Stationary(cat: Catalog, stmts: seq<Stmt>)
    requires Known(cat, stmts)
  {
    forall i | 0 <= i < |stmts| :: stmts[i].UpdateStmt? ==> Lands(cat, stmts[i]) == stmts[i].id
  }

  lemma ReplayOneMore(cat: Catalog, db: Db, mid: Db, w: Write, c: Change, older: seq<Change>, skip: bool)
    requires ValidDb(cat, mid) && Legal(cat, mid, w) && Faithful(cat, mid, w, c) && KeepsKey(cat, w)
    requires PlanFor(cat, older, true).Steps? && Stationary(cat, PlanFor(cat, older, true).stmts)
    requires var before := Replayed(cat, db, older, skip); Clean(before) && before.db == mid
    ensures PlanFor(cat, older + [c], true).Steps? && Stationary(cat, PlanFor(cat, older + [c], true).stmts)
    ensures var o := Replayed(cat, db, older + [c], skip); Clean(o) && o.db == Written(cat, mid, w)
  {
    hide PlanStep, PlanFor, Replayed, Exec, ValidDb, Faithful, Legal;
    ReplayStepApplies(cat, mid, w, c);
    ReplayNewest(cat, db, older, c, skip);
  }

  /**
   * Replay reaches the lost state: on the tables as they were before the run,
   * every step applies and the result is the tables after it.
   */
  lemma {:induction false} ReplayRedoesHistory(cat: Catalog, start: Db, es: seq<Entry>, skip: bool)
    requires ValidDb(cat, start) && History(cat, start, es) && KeepsKeys(cat, es)
    ensures PlanFor(cat, Log(es), true).Steps? && Stationary(cat, PlanFor(cat, Log(es), true).stmts)
    ensures var o := Replayed(cat, start, Log(es), skip); Clean(o) && o.db == End(cat, start, es)
    decreases |es|
  {
    if es != [] {
      hide PlanFor, Replayed, ValidDb, Faithful, Legal, Clean, Stationary, KeepsKeys;
      var mid := LastEntry(cat, start, es);
      var pre, e := es[..|es| - 1], es[|es| - 1];
      KeepsKeysSnoc(cat, es);
      ReplayRedoesHistory(cat, start, pre, skip);
      if e.change.Some? { ReplayOneMore(cat, start, mid, e.write, e.change.value, Log(pre), skip); }
    }
  }

  /** Undo then replay is the identity. */
  lemma UndoThenReplay(cat: Catalog, start: Db, es: seq<Entry>)
    requires ValidDb(cat, start) && History(cat, start, es) && KeepsKeys(cat, es)
    ensures var undone := Undo(cat, End(cat, start, es), Log(es), false);
            undone.Done? &&
            var redone := Replayed(cat, undone.db, Log(es), false);
            redone.Done? && redone.db == End(cat, start, es)
  {
    hide Undo, Replayed, ValidDb, History, KeepsKeys;
    UndoInvertsHistory(cat, start, es, false);
    ReplayRedoesHistory(cat, start, es, false);
  }

  /** Containment, column by column, takes the old key for the new one. */
  predicate Accepts(target: RowId, id: RowId) {
    forall k | k in id.key :: k in target.key && Contains(target.key[k], id.key[k])
  }

  /** A key change whose guard no row under the new key can pass. */
  ghost predicate NeverFinds(cat: Catalog, w: Write) {
    w.Upd? && w.Table() in cat && !Accepts(Target(cat, w), w.id)
  }

  lemma KeyChangeMisses(cat: Catalog, before: Db, w: Write, c: Change, db: Db)
    requires Legal(cat, before, w) && Faithful(cat, before, w, c) && NeverFinds(cat, w)
    requires cat[w.id.table].Valid() && Keyed(cat[w.id.table], w.id, before[w.id])
    requires Target(cat, w) in db ==> Keyed(cat[w.id.table], Target(cat, w), db[Target(cat, w)])
    ensures PlanStep(cat, c, true).Planned? && PlanStep(cat, c, true).stmt.UpdateStmt?
    ensures PlanStep(cat, c, true).stmt.Table() in cat && Exec(cat, db, PlanStep(cat, c, true).stmt) == Miss
  {
    var s, id, target := cat[w.id.table], w.id, Target(cat, w);
    ReplayUpdatePlan(cat, before, w, c);
    if target in db {
      KeyImages(s, before[id], w.row, id, target, c.oldRow.value);
      hide Faithful, Legal;
      var guard := c.oldRow.value - s.derived;
      var k :| k in id.key && !(k in target.key && Contains(target.key[k], id.key[k]));
      ContainsItself(id.key[k]);
      assert k in guard && guard[k] == id.key[k] && db[target][k] == target.key[k];
      assert !Holds(db[target], guard);
    }
  }

  /** Replaying such an update never takes effect, on any tables at all. */
  lemma KeyChangeNeverReplays(cat: Catalog, before: Db, w: Write, c: Change, db: Db)
    requires ValidDb(cat, before) && Legal(cat, before, w) && Faithful(cat, before, w, c)
    requires NeverFinds(cat, w) && ValidDb(cat, db)
    ensures PlanStep(cat, c, true).Planned? && PlanStep(cat, c, true).stmt.UpdateStmt?
    ensures PlanStep(cat, c, true).stmt.Table() in cat && Exec(cat, db, PlanStep(cat, c, true).stmt) == Miss
  {
    ValidRowIsKeyed(cat, before, w.id);
    if Target(cat, w) in db { ValidRowIsKeyed(cat, db, Target(cat, w)); }
    KeyChangeMisses(cat, before, w, c, db);
  }

  /** The row before a key change, but under the new key. */
  function Rekeyed(s: Schema, row: Row, key: Row): Row {
    s.Fill(row + key)
  }

  lemma RekeyedRow(s: Schema, row: Row, key: Row)
    requires s.Valid() && row.Keys == s.Columns() && key.Keys == s.pk && !NullInKey(key)
    ensures s.ValidRow(Rekeyed(s, row, key)) && s.Key(Rekeyed(s, row, key)) == key
    ensures forall k | k in s.base :: Get(Rekeyed(s, row, key), k) == if k in s.pk then key[k] else row[k]
  {
    FillKeepsStored(s, row + key);
    assert s.Key(row + key) == key;
    FilledRowIsValid(s, row + key);
    forall k | k in s.base ensures Get(Rekeyed(s, row, key), k) == if k in s.pk then key[k] else row[k] {
      assert Rekeyed(s, row, key)[k] == Get(row + key, k);
    }
  }

  lemma GuardTakesRekeyed(s: Schema, id: RowId, before: Row, target: RowId, img: Row)
    requires s.Valid() && Keyed(s, id, before) && target.key.Keys == s.pk && Accepts(target, id) && Agrees(s, img, before)
    requires forall k | k in s.base :: Get(Rekeyed(s, before, target.key), k) == if k in s.pk then target.key[k] else before[k]
    requires Rekeyed(s, before, target.key).Keys == s.Columns()
    ensures Holds(Rekeyed(s, before, target.key), img - s.derived)
  {
    var row, guard := Rekeyed(s, before, target.key), img - s.derived;
    hide Rekeyed;
    forall k | k in guard
      ensures k in row && Contains(row[k], guard[k])
    {
      assert k in s.base && guard[k] == Get(before, k) && row[k] == Get(row, k);
      ContainsItself(before[k]);
    }
  }

  /** The one row that a key change's replay is to find. */
  lemma RekeyedTable(cat: Catalog, before: Db, w: Write, img: Row) returns (db: Db)
    requires ValidDb(cat, before) && w.Upd? && w.id in before && w.id.table in cat && cat[w.id.table].ValidRow(w.row)
    requires Agrees(cat[w.id.table], img, before[w.id]) && Accepts(Target(cat, w), w.id)
    ensures ValidDb(cat, db) && Target(cat, w) in db && Holds(db[Target(cat, w)], img - cat[w.id.table].derived)
  {
    var s, id, target := cat[w.id.table], w.id, Target(cat, w);
    ValidRowIsKeyed(cat, before, id);
    TargetKey(s, w.row);
    var row := Rekeyed(s, before[id], target.key);
    RekeyedRow(s, before[id], target.key);
    ValidRowKeys(s, row);
    hide Rekeyed, Contains, Schema.Fill;
    GuardTakesRekeyed(s, id, before[id], target, img);
    db := map[][target := row];
    PutKeepsValid(cat, map[], target, row);
  }

  /** An update in place takes effect on a row its guard accepts. */
  lemma TakesEffect(cat: Catalog, db: Db, id: RowId, cols: set<string>, img: Row, guard: Row)
    requires ValidDb(cat, db) && id in db && Holds(db[id], guard)
    requires id.table in cat && id.key == map k | k in cat[id.table].pk :: if k in cols then Get(img, k) else Get(id.key, k)
    ensures Exec(cat, db, UpdateStmt(id, cols, img, Some(guard))).Hit?
  {
    hide Exec, Holds, Assign;
    ValidRowIsKeyed(cat, db, id);
    assert !NullInKey(id.key) by { assert id.key == cat[id.table].Key(db[id]); }
    hide ValidDb;
    UpdateHits(cat, db, id, id, cols, img, guard);
  }

  /** Where the guard can be passed, there are tables on which the replay takes effect. */
  lemma KeyChangeReplays(cat: Catalog, before: Db, w: Write, c: Change) returns (db: Db)
    requires ValidDb(cat, before) && Legal(cat, before, w) && Faithful(cat, before, w, c)
    requires w.Upd? && !NeverFinds(cat, w)
    ensures ValidDb(cat, db) && PlanStep(cat, c, true).Planned? && PlanStep(cat, c, true).stmt.Table() in cat
    ensures Exec(cat, db, PlanStep(cat, c, true).stmt).Hit?
  {
    hide PlanStep, Exec, ValidDb, Holds, Contains, Schema.ValidRow, Accepts;
    IdIsKnown(cat, before, w.id);
    ReplayUpdatePlan(cat, before, w, c);
    LandsAtTarget(cat, w, c.newRow.value);
    db := RekeyedTable(cat, before, w, c.oldRow.value);
    var s, img := cat[w.id.table], c.newRow.value;
    TakesEffect(cat, db, Target(cat, w), img.Keys * s.Settable(), img, c.oldRow.value - s.derived);
  }

  lemma TargetKey(s: Schema, row: Row)
    requires s.Valid() && s.ValidRow(row)
    ensures s.Key(row).Keys == s.pk && !NullInKey(s.Key(row))
  {
  }

  lemma LandsAtTarget(cat: Catalog, w: Write, img: Row)
    requires w.Upd? && w.id.table in cat && Agrees(cat[w.id.table], img, w.row) && cat[w.id.table].Valid()
    ensures var s, key := cat[w.id.table], Target(cat, w).key;
            key == map k | k in s.pk :: if k in img.Keys * s.Settable() then Get(img, k) else Get(key, k)
  {
  }

  /**
   * The replay of a recorded update that may have changed the key finds no row, on
   * any tables at all, exactly if some key column's new value does not contain its old one.
   */
  lemma NeverReplaysIff(cat: Catalog, before: Db, w: Write, c: Change)
    requires ValidDb(cat, before) && Legal(cat, before, w) && Faithful(cat, before, w, c) && w.Upd?
    ensures PlanStep(cat, c, true).Planned? && PlanStep(cat, c, true).stmt.Table() in cat
    ensures (forall db | ValidDb(cat, db) :: Exec(cat, db, PlanStep(cat, c, true).stmt) == Miss) <==> NeverFinds(cat, w)
  {
    ReplayIsPlanned(cat, before, w, c);
    hide ValidDb, Legal, Faithful, PlanStep, Exec, NeverFinds;
    if NeverFinds(cat, w) {
      forall db | ValidDb(cat, db)
        ensures Exec(cat, db, PlanStep(cat, c, true).stmt) == Miss
      {
        KeyChangeNeverReplays(cat, before, w, c, db);
      }
    } else {
      var db := KeyChangeReplays(cat, before, w, c);
    }
  }

  /** Which, for scalar keys, is any key change at all. */
  lemma FlatKeyNeverFinds(cat: Catalog, before: Db, w: Write)
    requires ValidDb(cat, before) && Legal(cat, before, w) && w.Upd?
    requires forall k | k in w.id.key :: Flat(w.id.key[k])
    ensures NeverFinds(cat, w) <==> Target(cat, w) != w.id
  {
    var id, target := w.id, Target(cat, w);
    ValidRowIsKeyed(cat, before, id);
    TargetKey(cat[id.table], w.row);
    hide ValidDb, Schema.Key, Legal;
    if target == id {
      forall k | k in id.key { ContainsItself(id.key[k]); }
    } else {
      DifferentValues(id.key, target.key);
      var k :| k in id.key && id.key[k] != target.key[k];
      GuardPinsValueIffFlat(id.key[k]);
    }
  }

  lemma KeyImages(s: Schema, before: Row, row: Row, id: RowId, target: RowId, img: Row)
    requires s.Valid() && Keyed(s, id, before) && target.key == s.Key(row) && Agrees(s, img, before)
    requires forall k | k in s.base && Get(before, k) != Get(row, k) :: k in img
    ensures target.key.Keys == s.pk && forall k | k in s.pk && id.key[k] != target.key[k] :: k in img && img[k] == id.key[k]
  {
    forall k | k in s.pk ensures target.key[k] == Get(row, k) && id.key[k] == Get(before, k) {}
  }

  lemma RefusedAtKeyChange(cat: Catalog, mid: Db, w: Write, c: Change, db: Db, older: seq<Change>)
    requires ValidDb(cat, mid) && Legal(cat, mid, w) && Faithful(cat, mid, w, c) && ValidDb(cat, db)
    requires PlanFor(cat, older, true).Steps?
    ensures PlanFor(cat, older + [c], true).Steps?
    ensures Replayed(cat, db, older, false).Refused? || NeverFinds(cat, w) ==>
              Replayed(cat, db, older + [c], false).Refused?
  {
    hide PlanStep, PlanFor, Apply, Exec, ValidDb, Faithful, NeverFinds;
    ReplayIsPlanned(cat, mid, w, c);
    ReplayNewest(cat, db, older, c, false);
    var o := Replayed(cat, db, older, false);
    if o.Done? && NeverFinds(cat, w) {
      ApplyKeepsValid(cat, db, PlanFor(cat, older, true).stmts, false, true);
      KeyChangeNeverReplays(cat, mid, w, c, o.db);
    }
  }

  ghost predicate SomeNeverFinds(cat: Catalog, es: seq<Entry>) {
    exists i :: 0 <= i < |es| && NeverFinds(cat, es[i].write)
  }

  /** Wherever an update that never replays stands in a log, replaying that log refuses. */
  lemma {:induction false} KeyChangeRefusesReplay(cat: Catalog, start: Db, es: seq<Entry>, db: Db)
    requires ValidDb(cat, start) && History(cat, start, es) && ValidDb(cat, db)
    ensures PlanFor(cat, Log(es), true).Steps?
    ensures SomeNeverFinds(cat, es) ==> Replayed(cat, db, Log(es), false).Refused?
    decreases |es|
  {
    if es != [] {
      hide PlanFor, Replayed, ValidDb, Faithful, NeverFinds, SomeNeverFinds;
      var mid := LastEntry(cat, start, es);
      var pre, e := es[..|es| - 1], es[|es| - 1];
      SomeSnoc(cat, es);
      KeyChangeRefusesReplay(cat, start, pre, db);
      if e.change.Some? {
        RefusedAtKeyChange(cat, mid, e.write, e.change.value, db, Log(pre));
      } else {
        UnrecordedFinds(cat, mid, e);
      }
    }
  }

  lemma SomeSnoc(cat: Catalog, es: seq<Entry>)
    requires es != []
    ensures SomeNeverFinds(cat, es) <==> SomeNeverFinds(cat, es[..|es| - 1]) || NeverFinds(cat, es[|es| - 1].write)
  {
    hide NeverFinds;
    var pre := es[..|es| - 1];
    if i :| 0 <= i < |pre| && NeverFinds(cat, pre[i].write) { assert es[i] == pre[i]; }
  }

  lemma UnrecordedFinds(cat: Catalog, db: Db, e: Entry)
    requires ValidDb(cat, db) && Legal(cat, db, e.write) && Recorded(cat, db, e) && e.change.None?
    ensures !NeverFinds(cat, e.write)
  {
    var id := e.write.id;
    forall k | k in id.key { ContainsItself(id.key[k]); }
  }

  /** No recorded update changes a key but so that its replay never takes effect. */
  ghost predicate KeysTold(cat: Catalog, es: seq<Entry>) {
    forall i | 0 <= i < |es| :: KeepsKey(cat, es[i].write) || NeverFinds(cat, es[i].write)
  }

  lemma ReplayIsPlanned(cat: Catalog, db: Db, w: Write, c: Change)
    requires ValidDb(cat, db) && Legal(cat, db, w) && Faithful(cat, db, w, c)
    ensures PlanStep(cat, c, true).Planned? && PlanStep(cat, c, true).stmt.Table() in cat
  {
    hide PlanStep, Faithful, ValidDb;
    if w.Upd? {
      IdIsKnown(cat, db, w.id);
      ReplayUpdatePlan(cat, db, w, c);
    } else {
      AlwaysKeepsKey(cat, w);
      ReplayStepApplies(cat, db, w, c);
    }
  }

  lemma IdIsKnown(cat: Catalog, db: Db, id: RowId)
    requires ValidDb(cat, db) && id in db
    ensures id.table in cat && cat[id.table].Valid()
  {
  }

  lemma AlwaysKeepsKey(cat: Catalog, w: Write)
    requires !w.Upd?
    ensures KeepsKey(cat, w)
  {
  }

  lemma {:induction false} StationaryOrigin(cat: Catalog, stmts: seq<Stmt>, id: RowId)
    requires Known(cat, stmts) && Stationary(cat, stmts)
    ensures Origin(cat, stmts, id) == id
    decreases |stmts|
  {
    if stmts != [] { StationaryOrigin(cat, stmts[..|stmts| - 1], id); }
  }

  /** Tables are determined by their stored cells. */
  lemma SameCellsSameRow(cat: Catalog, a: Db, b: Db, id: RowId)
    requires ValidDb(cat, a) && ValidDb(cat, b)
    requires forall k | StoredCell(cat, id, k) :: Cell(a, id, k) == Cell(b, id, k)
    ensures (id in a <==> id in b) && (id in a ==> a[id] == b[id])
  {
    if id in a || id in b {
      if id in a { ValidRowIsKeyed(cat, a, id); }
      if id in b { ValidRowIsKeyed(cat, b, id); }
      var s := cat[id.table];
      var k :| k in s.pk;
      assert StoredCell(cat, id, k) && Cell(a, id, k) == Cell(b, id, k);
      forall k | k in s.base ensures Get(a[id], k) == Get(b[id], k) {
        assert StoredCell(cat, id, k) && Cell(a, id, k) == Cell(b, id, k);
      }
      SameStoredSameRow(s, a[id], b[id]);
    }
  }

  lemma SameCellsSameTables(cat: Catalog, a: Db, b: Db)
    requires ValidDb(cat, a) && ValidDb(cat, b)
    requires forall id, k | StoredCell(cat, id, k) :: Cell(a, id, k) == Cell(b, id, k)
    ensures a == b
  {
    hide ValidDb, Cell, StoredCell;
    forall id ensures (id in a <==> id in b) && (id in a ==> a[id] == b[id]) {
      SameCellsSameRow(cat, a, b, id);
    }
  }

  /**
   * Replay on tables that are not where the run began: if it goes through, every
   * cell it writes ends as the run left it and every other cell is untouched.
   */
  lemma ReplayElsewhere(cat: Catalog, start: Db, es: seq<Entry>, now: Db)
    requires ValidDb(cat, start) && ValidDb(cat, now) && History(cat, start, es) && KeysTold(cat, es)
    ensures PlanFor(cat, Log(es), true).Steps?
    ensures var o := Replayed(cat, now, Log(es), false);
            var stmts := PlanFor(cat, Log(es), true).stmts;
            o.Done? ==> ValidDb(cat, o.db) && forall id, k | StoredCell(cat, id, k) ::
              Cell(o.db, id, k) ==
                if k in Touched(cat, stmts, id) then Cell(End(cat, start, es), id, k) else Cell(now, id, k)
  {
    hide PlanFor, Apply, ValidDb, History, Log, Touched, Cell, Clean, KeepsKey, NeverFinds;
    KeyChangeRefusesReplay(cat, start, es, now);
    assert KeepsKeys(cat, es) || SomeNeverFinds(cat, es);
    hide KeepsKeys, SomeNeverFinds;
    var stmts := PlanFor(cat, Log(es), true).stmts;
    var o := Replayed(cat, now, Log(es), false);
    if o.Done? {
      ReplayRedoesHistory(cat, start, es, false);
      CleanIsDone(Replayed(cat, start, Log(es), false));
      ApplyKeepsValid(cat, now, stmts, false, true);
      RunsInStep(cat, start, now, stmts, true);
      forall id, k | StoredCell(cat, id, k)
        ensures Cell(o.db, id, k) ==
          if k in Touched(cat, stmts, id) then Cell(End(cat, start, es), id, k) else Cell(now, id, k)
      {
        StationaryOrigin(cat, stmts, id);
      }
    }
  }

  /** Replaying any plan a second time either refuses or changes nothing, if it leaves rows under their keys. */
  lemma ReplayAgain(cat: Catalog, db: Db, cs: seq<Change>)
    requires ValidDb(cat, db) && PlanFor(cat, cs, true).Steps? && Stationary(cat, PlanFor(cat, cs, true).stmts)
    ensures var first := Replayed(cat, db, cs, false);
            first.Done? ==>
              var again := Replayed(cat, first.db, cs, false);
              again.Refused? || again.db == first.db
  {
    hide PlanFor, Apply, ValidDb, Touched, Cell, Stationary;
    var stmts, first := PlanFor(cat, cs, true).stmts, Replayed(cat, db, cs, false);
    if first.Done? {
      ApplyKeepsValid(cat, db, stmts, false, true);
      var again := Replayed(cat, first.db, cs, false);
      if again.Done? {
        ApplyKeepsValid(cat, first.db, stmts, false, true);
        RunsInStep(cat, db, first.db, stmts, true);
        forall id, k | StoredCell(cat, id, k)
          ensures Cell(again.db, id, k) == Cell(first.db, id, k)
        {
          StationaryOrigin(cat, stmts, id);
        }
        SameCellsSameTables(cat, again.db, first.db);
      }
    }
  }

  /** A change whose replay never takes effect, on any tables at all. */
  ghost predicate NeverReplays(cat: Catalog, c: Change) {
    PlanStep(cat, c, true).Planned? &&
    var st := PlanStep(cat, c, true).stmt;
    st.UpdateStmt? && st.Table() in cat && forall db | ValidDb(cat, db) :: Exec(cat, db, st) == Miss
  }

  /** Every logged change is replayed in place: an update, under the key it left its row with. */
  lemma {:induction false} LogReplaysInPlace(cat: Catalog, start: Db, es: seq<Entry>)
    requires ValidDb(cat, start) && History(cat, start, es)
    ensures forall i | 0 <= i < |Log(es)| :: Placed(cat, Log(es)[i])
    decreases |es|
  {
    if es != [] {
      hide ValidDb, Faithful, Legal, Placed, Written;
      var mid := LastEntry(cat, start, es);
      var pre, e := es[..|es| - 1], es[|es| - 1];
      LogReplaysInPlace(cat, start, pre);
      if e.change.Some? { ChangeReplaysInPlace(cat, mid, e.write, e.change.value); }
    }
  }

  lemma ChangeReplaysInPlace(cat: Catalog, mid: Db, w: Write, c: Change)
    requires ValidDb(cat, mid) && Legal(cat, mid, w) && Faithful(cat, mid, w, c)
    ensures Placed(cat, c)
  {
    if w.Upd? {
      UpdateReplaysInPlace(cat, mid, w, c);
    } else {
      FaithfulRow(cat, mid, w, c);
      KeyOfKey(cat[w.Table()], if w.Del? then mid[w.id] else w.row);
      hide PlanStep, Exec, InPlace;
      AlwaysKeepsKey(cat, w);
      ReplayStepApplies(cat, mid, w, c);
    }
  }

  lemma UpdateReplaysInPlace(cat: Catalog, mid: Db, w: Write, c: Change)
    requires ValidDb(cat, mid) && w.Upd? && Legal(cat, mid, w) && Faithful(cat, mid, w, c)
    ensures Placed(cat, c)
  {
    hide ValidDb, PlanStep, Schema.ValidRow, Schema.Valid;
    IdIsKnown(cat, mid, w.id);
    ReplayUpdatePlan(cat, mid, w, c);
    LandsAtTarget(cat, w, c.newRow.value);
    FaithfulRow(cat, mid, w, c);
    KeyOfKey(cat[w.id.table], w.row);
  }

  lemma PlacedIsStationary(cat: Catalog, cs: seq<Change>)
    requires forall i | 0 <= i < |cs| :: Placed(cat, cs[i])
    ensures PlanFor(cat, cs, true).Steps? && Stationary(cat, PlanFor(cat, cs, true).stmts)
  {
    PlanIsEachStep(cat, cs, true);
    hide PlanStep, PlanFor, Lands;
  }

  /** A selection with a change that never replays is refused. */
  lemma NeverReplaysRefuses(cat: Catalog, db: Db, cs: seq<Change>, i: nat)
    requires ValidDb(cat, db) && i < |cs| && NeverReplays(cat, cs[i])
    ensures Replayed(cat, db, cs, false).Refused?
  {
    hide PlanFor, Apply, ValidDb, PlanStep, Exec;
    PlanIsEachStep(cat, cs, true);
    if Replayed(cat, db, cs, false).Done? {
      var stmts := PlanFor(cat, cs, true).stmts;
      ApplyPrefix(cat, db, stmts, false, true, i);
      ApplyKeepsValid(cat, db, stmts[..i], false, true);
    }
  }

  /**
   * Replaying a selection a second time either refuses or changes nothing: any
   * selection of any run's changes, on whatever tables the first replay went through.
   */
  lemma ReplayTwice(cat: Catalog, start: Db, es: seq<Entry>, cs: seq<Change>, db: Db)
    requires ValidDb(cat, start) && History(cat, start, es) && ValidDb(cat, db)
    requires forall c | c in cs :: c in Log(es)
    ensures var first := Replayed(cat, db, cs, false);
            first.Done? ==>
              var again := Replayed(cat, first.db, cs, false);
              again.Refused? || again.db == first.db
  {
    hide Replayed, ValidDb, History, Log, Placed, PlanFor, Stationary;
    LogReplaysInPlace(cat, start, es);
    forall i | 0 <= i < |cs|
      ensures Placed(cat, cs[i])
    {
      assert cs[i] in Log(es);
    }
    PlacedIsStationary(cat, cs);
    ReplayAgain(cat, db, cs);
  }

  lemma PlacedIsAimed(cat: Catalog, c: Change, id: RowId)
    requires Placed(cat, c)
    ensures Aimed(cat, c, true) && (RowOf(c) != id ==> StaysOff(cat, c, true, id))
  {
  }

  /** So every flag of a replay preview, of any selection of a run's changes, is a refusal, or an absent row's delete. */
  lemma ReplayFlagRefuses(cat: Catalog, start: Db, es: seq<Entry>, cs: seq<Change>, db: Db, i: nat)
    requires ValidDb(cat, start) && History(cat, start, es) && ValidDb(cat, db)
    requires (forall c | c in cs :: c in Log(es)) && i < |cs| && Flagged(cat, db, cs, true, i)
    ensures var o := RunPlan(cat, db, cs, true, false);
            o.Done? ==> i < |o.statuses| && cs[i].op == D && RowOf(cs[i]) !in db && o.statuses[i] == Satisfied
  {
    hide RunPlan, ValidDb, History, Log, Placed, Aimed, StaysOff, Probe;
    LogReplaysInPlace(cat, start, es);
    forall j | 0 <= j <= i
      ensures Aimed(cat, cs[j], true) && (j < i ==> StaysOff(cat, cs[j], true, RowOf(cs[i])))
    {
      assert cs[j] in Log(es);
      PlacedIsAimed(cat, cs[j], RowOf(cs[i]));
    }
    FlaggedMeansRefused(cat, db, cs, true, i);
  }
}
