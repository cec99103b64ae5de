/** `as_of`: a past table computed per column, against stepping backwards. */
module AsOf {
  import opened Options
  import opened Json
  import opened Tables
  import opened Capture
  import opened Plan
  import opened Inverse
  import opened Conflicts

  /** `kv`: the value the oldest change after T recorded for a column. */
  function OldValue(win: seq<Change>, id: RowId, k: string): Option<Json> {
    if win == [] then None
    else if RowOf(win[0]) == id && win[0].oldRow.Some? && k in win[0].oldRow.value then Some(win[0].oldRow.value[k])
    else OldValue(win[1..], id, k)
  }

  /** The columns `overlay` has a value for. */
  function OverlaidCols(win: seq<Change>, id: RowId): (cols: set<string>)
    ensures forall k | k in cols :: OldValue(win, id, k).Some?
  {
    if win == [] then {}
    else
      (if RowOf(win[0]) == id && win[0].oldRow.Some? then win[0].oldRow.value.Keys else {})
      + OverlaidCols(win[1..], id)
  }

  function Overlay(win: seq<Change>, id: RowId): Row {
    map k | k in OverlaidCols(win, id) :: OldValue(win, id, k).value
  }

  /** `oldest`: the first operation on the row after T. */
  function OldestOp(win: seq<Change>, id: RowId): Option<Op> {
    if win == [] then None
    else if RowOf(win[0]) == id then Some(win[0].op)
    else OldestOp(win[1..], id)
  }

  /** One row of the full join; None where the query returns nothing for the key. */
  function AsOfRow(db: Db, win: seq<Change>, id: RowId): Option<Row> {
    if (id in db || OverlaidCols(win, id) != {}) && OldestOp(win, id) != Some(I)
    then Some((if id in db then db[id] else map[]) + Overlay(win, id))
    else None
  }

  /** `as_of`, keyed: `win` is the log after T, oldest first. */
  function AsOfTable(db: Db, win: seq<Change>, table: string): map<RowId, Row> {
    map id | id in db.Keys + (set i | 0 <= i < |win| :: RowOf(win[i])) &&
             id.table == table && AsOfRow(db, win, id).Some? :: AsOfRow(db, win, id).value
  }

  /** Every record's old image is the row as it was, generated columns included. */
  ghost predicate ExactHistory(cat: Catalog, db: Db, es: seq<Entry>)
    requires History(cat, db, es)
    decreases |es|
  {
    es == [] ||
    var pre := es[..|es| - 1];
    ExactHistory(cat, db, pre) &&
    (es[|es| - 1].change.Some? ==> ExactOld(End(cat, db, pre), es[|es| - 1].write, es[|es| - 1].change.value))
  }

  lemma {:induction false} ExactTail(cat: Catalog, db: Db, e: Entry, es: seq<Entry>)
    requires History(cat, db, [e] + es) && ExactHistory(cat, db, [e] + es)
    ensures History(cat, db, [e]) && History(cat, End(cat, db, [e]), es)
    ensures ExactHistory(cat, db, [e]) && ExactHistory(cat, End(cat, db, [e]), es)
    decreases |es|
  {
    HistoryConcat(cat, db, [e], es);
    if es == [] {
      assert [e] + es == [e];
    } else {
      var n := |es| - 1;
      var all := [e] + es;
      assert all[..|all| - 1] == [e] + es[..n] && all[|all| - 1] == es[n];
      ExactTail(cat, db, e, es[..n]);
      HistoryConcat(cat, db, [e], es[..n]);
    }
  }

  lemma OneEntry(cat: Catalog, db: Db, e: Entry)
    requires History(cat, db, [e])
    ensures Extends(cat, db, e) && End(cat, db, [e]) == Written(cat, db, e.write)
    ensures Log([e]) == if e.change.Some? then [e.change.value] else []
    ensures ExactHistory(cat, db, [e]) && e.change.Some? ==> ExactOld(db, e.write, e.change.value)
  {
    assert [e][..0] == [];
  }

  /** The oldest change in the window, about some row, and the others behind it. */
  lemma AsOfFirst(db: Db, c: Change, win: seq<Change>, id: RowId)
    ensures RowOf(c) != id ==> AsOfRow(db, [c] + win, id) == AsOfRow(db, win, id)
    ensures RowOf(c) == id ==> OldestOp([c] + win, id) == Some(c.op)
    ensures RowOf(c) == id && c.oldRow.Some? ==>
              Overlay([c] + win, id) == Overlay(win, id) + c.oldRow.value
              && OverlaidCols([c] + win, id) == c.oldRow.value.Keys + OverlaidCols(win, id)
  {
    var all := [c] + win;
    assert all[1..] == win && all[0] == c;
    assert OverlaidCols(all, id) == (if RowOf(c) == id && c.oldRow.Some? then c.oldRow.value.Keys else {}) + OverlaidCols(win, id);
    if RowOf(c) != id {
      assert forall k :: OldValue(all, id, k) == OldValue(win, id, k);
      assert Overlay(all, id) == Overlay(win, id);
    }
  }

  lemma AsOfDeleted(now: Db, c: Change, win: seq<Change>, row: Row)
    requires c.op == D && c.oldRow == Some(row) && row != map[]
    requires OverlaidCols(win, RowOf(c)) <= row.Keys
    requires RowOf(c) in now ==> now[RowOf(c)].Keys <= row.Keys
    ensures AsOfRow(now, [c] + win, RowOf(c)) == Some(row)
  {
    AsOfFirst(now, c, win, RowOf(c));
    var k :| k in row;
    assert k in OverlaidCols([c] + win, RowOf(c));
    var cur := if RowOf(c) in now then now[RowOf(c)] else map[];
    assert cur + (Overlay(win, RowOf(c)) + row) == row;
  }

  lemma AsOfUpdated(now: Db, c: Change, win: seq<Change>, before: Row, after: Row)
    requires c.op == U && c.oldRow.Some? && before.Keys == after.Keys
    requires c.oldRow.value.Keys <= before.Keys && (forall k | k in c.oldRow.value :: c.oldRow.value[k] == before[k])
    requires forall k | k in before && before[k] != after[k] :: k in c.oldRow.value
    requires AsOfRow(now, win, RowOf(c)) == Some(after)
    ensures AsOfRow(now, [c] + win, RowOf(c)) == Some(before)
  {
    AsOfFirst(now, c, win, RowOf(c));
    var cur := if RowOf(c) in now then now[RowOf(c)] else map[];
    assert cur + (Overlay(win, RowOf(c)) + c.oldRow.value) == after + c.oldRow.value;
    assert after + c.oldRow.value == before;
  }

  /** One more change under an answer that was right just after it. */
  lemma AsOfStep(cat: Catalog, start: Db, w: Write, c: Change, now: Db, win: seq<Change>, id: RowId)
    requires ValidDb(cat, start) && ValidDb(cat, now)
    requires Legal(cat, start, w) && Faithful(cat, start, w, c) && ExactOld(start, w, c)
    requires Target(cat, w) == id || (w.Upd? && w.id == id) ==> KeepsKey(cat, w)
    requires id.table in cat ==> OverlaidCols(win, id) <= cat[id.table].Columns()
    requires var mid := Written(cat, start, w);
             (Target(cat, w) == id && !w.Upd?) || AsOfRow(now, win, id) == if id in mid then Some(mid[id]) else None
    ensures AsOfRow(now, [c] + win, id) == if id in start then Some(start[id]) else None
  {
    FaithfulRow(cat, start, w, c);
    AsOfFirst(now, c, win, id);
    if RowOf(c) == id {
      if id in now { ValidRowKeys(cat[id.table], now[id]); }
      match w
      case Ins(_, _) =>
      case Del(_) =>
        ValidRowKeys(cat[id.table], start[id]);
        assert start[id].Keys != {};
        AsOfDeleted(now, c, win, start[id]);
      case Upd(_, row) =>
        ValidRowKeys(cat[id.table], start[id]);
        ValidRowKeys(cat[id.table], row);
        AsOfUpdated(now, c, win, start[id], row);
    }
  }

  lemma {:induction false} OverlaidInColumns(cat: Catalog, start: Db, es: seq<Entry>, id: RowId)
    requires History(cat, start, es) && id.table in cat
    ensures OverlaidCols(Log(es), id) <= cat[id.table].Columns()
    decreases |es|
  {
    if es != [] {
      var n := |es| - 1;
      OverlaidInColumns(cat, start, es[..n], id);
      if es[n].change.Some? {
        OldImageInColumns(cat, End(cat, start, es[..n]), es[n].write, es[n].change.value);
        OverlaidSnoc(Log(es[..n]), es[n].change.value, id);
      } else {
        assert Log(es) == Log(es[..n]);
      }
    }
  }

  lemma OldImageInColumns(cat: Catalog, db: Db, w: Write, c: Change)
    requires Legal(cat, db, w) && Faithful(cat, db, w, c)
    ensures c.table in cat && (c.oldRow.Some? ==> c.oldRow.value.Keys <= cat[c.table].Columns())
  {
  }

  lemma {:induction false} OverlaidSnoc(log: seq<Change>, c: Change, id: RowId)
    ensures OverlaidCols(log + [c], id) ==
            OverlaidCols(log, id) + if RowOf(c) == id && c.oldRow.Some? then c.oldRow.value.Keys else {}
  {
    if log == [] {
      assert [c][1..] == [] && log + [c] == [c];
    } else {
      assert (log + [c])[1..] == log[1..] + [c];
      OverlaidSnoc(log[1..], c, id);
    }
  }

  /** Taking the oldest entry off a run. */
  lemma FirstEntry(cat: Catalog, start: Db, es: seq<Entry>) returns (mid: Db)
    requires es != [] && ValidDb(cat, start) && History(cat, start, es)
    ensures Extends(cat, start, es[0]) && mid == Written(cat, start, es[0].write) && ValidDb(cat, mid)
    ensures History(cat, mid, es[1..]) && End(cat, start, es) == End(cat, mid, es[1..])
    ensures Log(es) == (if es[0].change.Some? then [es[0].change.value] else []) + Log(es[1..])
  {
    assert es == [es[0]] + es[1..];
    HistoryConcat(cat, start, [es[0]], es[1..]);
    OneEntry(cat, start, es[0]);
    LogConcat([es[0]], es[1..]);
    mid := Written(cat, start, es[0].write);
    WrittenIsValid(cat, start, es[0].write);
  }

  lemma FirstExact(cat: Catalog, start: Db, es: seq<Entry>)
    requires es != [] && History(cat, start, es) && ExactHistory(cat, start, es) && es[0].write.Table() in cat
    requires History(cat, Written(cat, start, es[0].write), es[1..])
    ensures ExactHistory(cat, Written(cat, start, es[0].write), es[1..])
    ensures es[0].change.Some? ==> ExactOld(start, es[0].write, es[0].change.value)
  {
    assert es == [es[0]] + es[1..];
    ExactTail(cat, start, es[0], es[1..]);
    OneEntry(cat, start, es[0]);
  }

  /** The answer for one row is right if it was right just after the oldest entry. */
  ghost predicate RightFor(now: Db, win: seq<Change>, past: Db, id: RowId) {
    AsOfRow(now, win, id) == if id in past then Some(past[id]) else None
  }

  lemma AsOfOneMore(cat: Catalog, start: Db, e: Entry, now: Db, win: seq<Change>, id: RowId)
    requires ValidDb(cat, start) && ValidDb(cat, now) && Extends(cat, start, e)
    requires Concerns(cat, e, id) ==> KeepsKey(cat, e.write)
    requires e.change.Some? ==> ExactOld(start, e.write, e.change.value)
    requires id.table in cat ==> OverlaidCols(win, id) <= cat[id.table].Columns()
    requires (Concerns(cat, e, id) && !e.write.Upd?) || RightFor(now, win, Written(cat, start, e.write), id)
    ensures RightFor(now, (if e.change.Some? then [e.change.value] else []) + win, start, id)
  {
    hide AsOfRow, ExactOld, ValidDb, OverlaidCols;
    if e.change.Some? {
      AsOfStep(cat, start, e.write, e.change.value, now, win, id);
    } else {
      UnrecordedChangesNothing(cat, start, e);
      assert [] + win == win;
    }
  }

  lemma AsOfNothing(now: Db, id: RowId)
    ensures RightFor(now, [], now, id)
  {
    if id in now { assert now[id] + Overlay([], id) == now[id]; }
  }

  /**
   * No recorded write brings a row to this place or takes it from there by changing
   * its key, up to the first insert or delete there.
   */
  ghost predicate StaysPut(cat: Catalog, es: seq<Entry>, id: RowId) {
    es == [] ||
    if !Concerns(cat, es[0], id) then StaysPut(cat, es[1..], id)
    else KeepsKey(cat, es[0].write) && (es[0].write.Upd? ==> StaysPut(cat, es[1..], id))
  }

  /**
   * as_of is exact: for any run of captured changes after T -- repeated updates
   * in different columns, deletes, inserts, deletes and re-inserts under one key
   * -- the query returns the row as it stood at T, and none if there was none.
   * Other rows may have moved as they like, and so may this one once it was
   * inserted, or after it was deleted.
   */
  lemma {:induction false} AsOfRowIsExact(cat: Catalog, start: Db, es: seq<Entry>, id: RowId)
    requires ValidDb(cat, start) && History(cat, start, es) && ExactHistory(cat, start, es) && StaysPut(cat, es, id)
    ensures RightFor(End(cat, start, es), Log(es), start, id)
    decreases |es|
  {
    if es == [] {
      AsOfNothing(start, id);
    } else {
      hide AsOfRow, ExactOld, ValidDb, OverlaidCols, RightFor, Log, History, ExactHistory, Written, KeepsKey, Concerns,
        Legal, Recorded;
      var mid := FirstEntry(cat, start, es);
      EntryTable(cat, start, es[0]);
      FirstExact(cat, start, es);
      hide Extends;
      if StaysPut(cat, es[1..], id) { AsOfRowIsExact(cat, mid, es[1..], id); }
      EndIsValid(cat, mid, es[1..]);
      if id.table in cat { OverlaidInColumns(cat, mid, es[1..], id); }
      AsOfOneMore(cat, start, es[0], End(cat, start, es), Log(es[1..]), id);
    }
  }

  lemma EntryTable(cat: Catalog, db: Db, e: Entry)
    requires Extends(cat, db, e)
    ensures e.write.Table() in cat
  {
  }

  function TableAt(db: Db, table: string): map<RowId, Row> {
    map id | id in db && id.table == table :: db[id]
  }

  lemma RowByRow(now: Db, win: seq<Change>, past: Db, table: string)
    ensures AsOfTable(now, win, table) == TableAt(past, table) <==>
            forall id: RowId | id.table == table :: RightFor(now, win, past, id)
  {
    hide AsOfRow, AsOfTable;
    var answer, table' := AsOfTable(now, win, table), TableAt(past, table);
    forall id
      ensures id in answer <==> id.table == table && AsOfRow(now, win, id).Some?
      ensures id in answer ==> answer[id] == AsOfRow(now, win, id).value
    {
      InAnswer(now, win, table, id);
    }
    if forall id: RowId | id.table == table :: RightFor(now, win, past, id) {
      forall id ensures (id in answer <==> id in table') && (id in answer ==> answer[id] == table'[id]) {
        assert id.table == table ==> RightFor(now, win, past, id);
      }
      assert answer.Keys == table'.Keys;
    } else {
      var id: RowId :| id.table == table && !RightFor(now, win, past, id);
      assert !((id in answer <==> id in table') && (id in answer ==> answer[id] == table'[id]));
    }
  }

  /** The query finds a row for every key its parts give one to. */
  lemma InAnswer(now: Db, win: seq<Change>, table: string, id: RowId)
    ensures id in AsOfTable(now, win, table) <==> id.table == table && AsOfRow(now, win, id).Some?
    ensures id in AsOfTable(now, win, table) ==> AsOfTable(now, win, table)[id] == AsOfRow(now, win, id).value
  {
    if id !in now && OverlaidCols(win, id) != {} {
      OverlaidIsLogged(win, id);
      var i :| 0 <= i < |win| && RowOf(win[i]) == id;
      assert id in set i | 0 <= i < |win| :: RowOf(win[i]);
    }
  }

  /**
   * as_of returns the table as it stood at T, which is also the table that
   * stepwise undo of everything after T leaves, if no row there moved before it was inserted or deleted.
   */
  lemma AsOfIsThePast(cat: Catalog, start: Db, es: seq<Entry>, table: string)
    requires ValidDb(cat, start) && History(cat, start, es) && ExactHistory(cat, start, es)
    requires forall id: RowId | id.table == table :: StaysPut(cat, es, id)
    ensures AsOfTable(End(cat, start, es), Log(es), table) == TableAt(start, table)
    ensures var undone := Undo(cat, End(cat, start, es), Log(es), false);
            undone.Done? && AsOfTable(End(cat, start, es), Log(es), table) == TableAt(undone.db, table)
  {
    var now, win := End(cat, start, es), Log(es);
    UndoInvertsHistory(cat, start, es, false);
    hide RightFor, AsOfTable, Undo, ValidDb, History, ExactHistory, StaysPut, TableAt;
    var undone := Undo(cat, now, win, false);
    assert undone.Done? && undone.db == start;
    forall id: RowId | id.table == table ensures RightFor(now, win, start, id) {
      AsOfRowIsExact(cat, start, es, id);
    }
    RowByRow(now, win, start, table);
  }

  lemma {:induction false} OverlaidIsLogged(win: seq<Change>, id: RowId)
    requires OverlaidCols(win, id) != {}
    ensures exists i :: 0 <= i < |win| && RowOf(win[i]) == id
  {
    if !(RowOf(win[0]) == id && win[0].oldRow.Some?) {
      OverlaidIsLogged(win[1..], id);
      var i :| 0 <= i < |win[1..]| && RowOf(win[1..][i]) == id;
      assert RowOf(win[i + 1]) == id;
    }
  }
}
