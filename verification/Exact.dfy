/** What an undo that goes through does to every cell, rows followed wherever they moved. */
module Exact {
  import opened Options
  import opened Json
  import opened Tables
  import opened Statements
  import opened Capture
  import opened Plan
  import opened Inverse
  import opened Window
  import opened Conflicts

  /** Where a run leaves the row that stood at `id` when it began; None if it removed it. */
  ghost function Place(cat: Catalog, start: Db, es: seq<Entry>, id: RowId): Option<RowId> {
    if es == [] then if id in start then Some(id) else None
    else
      var p, w := Place(cat, start, es[..|es| - 1], id), es[|es| - 1].write;
      if p.None? || w.Ins? || w.id != p.value then p
      else if w.Del? then None
      else if w.Table() in cat then Some(Target(cat, w)) else p
  }

  /** Some write of the run changed this column of the row that stood at `id`, or removed the row. */
  ghost predicate Wrote(cat: Catalog, start: Db, es: seq<Entry>, id: RowId, k: string)
    requires History(cat, start, es)
    decreases |es|
  {
    es != [] &&
    var pre, w := es[..|es| - 1], es[|es| - 1].write;
    (Wrote(cat, start, pre, id, k) ||
     (!w.Ins? && Place(cat, start, pre, id) == Some(w.id) &&
      (w.Del? || Cell(End(cat, start, pre), w.id, k) != Some(Get(w.row, k)))))
  }

  /** Some write of the run put a row at this place. */
  ghost predicate Landed(cat: Catalog, es: seq<Entry>, id: RowId) {
    exists i | 0 <= i < |es| :: !es[i].write.Del? && es[i].write.Table() in cat && Target(cat, es[i].write) == id
  }

  /** What a successful undo must have done to one cell. */
  ghost predicate UndoneCell(cat: Catalog, start: Db, es: seq<Entry>, now: Db, after: Db, id: RowId, k: string)
    requires History(cat, start, es)
  {
    if id in start then
      var place := Place(cat, start, es, id);
      if Wrote(cat, start, es, id, k) then
        && Cell(after, id, k) == Cell(start, id, k)
        && (place.Some? ==> Cell(now, place.value, k) == Cell(End(cat, start, es), place.value, k))
      else place.Some? && Cell(after, id, k) == Cell(now, place.value, k)
    else if Landed(cat, es, id) then id !in after
    else (id in after <==> id in now) && Cell(after, id, k) == Cell(now, id, k)
  }

  ghost predicate FlatChange(c: Change) {
    c.newRow.Some? ==> forall k | k in c.newRow.value :: Flat(c.newRow.value[k])
  }

  ghost predicate FlatLog(log: seq<Change>) {
    forall i | 0 <= i < |log| :: FlatChange(log[i])
  }

  lemma LandedSnoc(cat: Catalog, es: seq<Entry>, e: Entry, id: RowId)
    ensures Landed(cat, es + [e], id) <==>
            Landed(cat, es, id) || (!e.write.Del? && e.write.Table() in cat && Target(cat, e.write) == id)
  {
    var all := es + [e];
    if !e.write.Del? && e.write.Table() in cat && Target(cat, e.write) == id { assert all[|es|] == e; }
    if Landed(cat, es, id) {
      var i :| 0 <= i < |es| && !es[i].write.Del? && es[i].write.Table() in cat && Target(cat, es[i].write) == id;
      assert all[i] == es[i];
    }
  }

  /** A row stands where it was followed to, a cell not written is as it was, and every row came from somewhere. */
  ghost predicate FollowedTo(cat: Catalog, start: Db, es: seq<Entry>, id: RowId, k: string)
    requires History(cat, start, es)
  {
    var place, end := Place(cat, start, es, id), End(cat, start, es);
    && (place.Some? ==> id in start && place.value in end && place.value.table == id.table)
    && (place.None? && id in start ==> Wrote(cat, start, es, id, k))
    && (place.Some? && !Wrote(cat, start, es, id, k) ==> Cell(end, place.value, k) == Cell(start, id, k))
    && (id in end ==> id in start || Landed(cat, es, id))
  }

  /** A place no write takes its row from keeps it. */
  lemma WriteKeeps(cat: Catalog, mid: Db, w: Write, p: RowId)
    requires Legal(cat, mid, w) && p in mid && (w.Ins? || p != w.id)
    ensures p in Written(cat, mid, w) && Written(cat, mid, w)[p] == mid[p]
  {
  }

  lemma WriteMoves(cat: Catalog, mid: Db, w: Write)
    requires w.Upd? && ValidDb(cat, mid) && Legal(cat, mid, w)
    ensures w.id in mid && Target(cat, w) in Written(cat, mid, w) && Written(cat, mid, w)[Target(cat, w)] == w.row
    ensures w.id.table == Target(cat, w).table && w.row.Keys == cat[w.id.table].Columns() == mid[w.id].Keys
    ensures Target(cat, w) == w.id || Target(cat, w) !in mid
  {
    ValidRowKeys(cat[w.id.table], w.row);
    ValidRowKeys(cat[w.id.table], mid[w.id]);
  }

  lemma WriteLands(cat: Catalog, mid: Db, w: Write, p: RowId)
    requires Legal(cat, mid, w) && p in Written(cat, mid, w)
    ensures p in mid || (!w.Del? && p == Target(cat, w))
  {
  }

  lemma FollowedStep(cat: Catalog, start: Db, pre: seq<Entry>, e: Entry, id: RowId, k: string)
    requires History(cat, start, pre) && History(cat, start, pre + [e])
    requires FollowedTo(cat, start, pre, id, k) && StoredCell(cat, id, k)
    requires var mid := End(cat, start, pre);
             ValidDb(cat, mid) && Legal(cat, mid, e.write) && End(cat, start, pre + [e]) == Written(cat, mid, e.write)
    ensures FollowedTo(cat, start, pre + [e], id, k)
  {
    hide ValidDb, Legal, Recorded, Written, History, Landed, End, Extends;
    var mid, w := End(cat, start, pre), e.write;
    LandedSnoc(cat, pre, e, id);
    assert (pre + [e])[..|pre|] == pre;
    var place := Place(cat, start, pre, id);
    TableKnown(cat, mid, w);
    if id in End(cat, start, pre + [e]) { WriteLands(cat, mid, w, id); }
    if place.Some? {
      if w.Ins? || place.value != w.id {
        WriteKeeps(cat, mid, w, place.value);
      } else if w.Upd? {
        WriteMoves(cat, mid, w);
      }
    }
  }

  lemma TableKnown(cat: Catalog, db: Db, w: Write)
    requires Legal(cat, db, w)
    ensures w.Table() in cat
  {
  }

  /** The newest write of a run, on the tables it was made on. */
  lemma LastWrite(cat: Catalog, start: Db, es: seq<Entry>) returns (mid: Db, pre: seq<Entry>, e: Entry)
    requires es != [] && ValidDb(cat, start) && History(cat, start, es)
    ensures es == pre + [e] && |pre| == |es| - 1 && History(cat, start, pre) && mid == End(cat, start, pre)
    ensures ValidDb(cat, mid) && Legal(cat, mid, e.write) && Recorded(cat, mid, e) && e.write.Table() in cat
    ensures End(cat, start, es) == Written(cat, mid, e.write)
    ensures Log(es) == (if e.change.Some? then Log(pre) + [e.change.value] else Log(pre))
  {
    hide ValidDb, Legal, Recorded, Written;
    pre, e := es[..|es| - 1], es[|es| - 1];
    mid := End(cat, start, pre);
    EndIsValid(cat, start, pre);
    TableKnown(cat, mid, e.write);
  }

  lemma {:induction false} Followed(cat: Catalog, start: Db, es: seq<Entry>, id: RowId, k: string)
    requires ValidDb(cat, start) && History(cat, start, es) && StoredCell(cat, id, k)
    ensures FollowedTo(cat, start, es, id, k)
    decreases |es|
  {
    if es != [] {
      hide ValidDb, FollowedTo, StoredCell, History, End, Extends;
      var mid, pre, e := LastWrite(cat, start, es);
      Followed(cat, start, pre, id, k);
      FollowedStep(cat, start, pre, e, id, k);
    }
  }

  // ---- One step back ---------------------------------------------------------------

  lemma RestoredElsewhere(cat: Catalog, mid: Db, w: Write, c: Change, now: Db, p: RowId)
    requires w.Table() in cat && p != Target(cat, w) && (w.Upd? ==> p != w.id)
    ensures var next := Restored(cat, now, mid, w, c);
            (p in next <==> p in now) && forall k :: Cell(next, p, k) == Cell(now, p, k)
  {
    hide Assign;
  }

  lemma RestoredUpdate(cat: Catalog, mid: Db, w: Write, c: Change, now: Db, k: string)
    requires w.Upd? && Legal(cat, mid, w) && Faithful(cat, mid, w, c) && FlatChange(c)
    requires cat[w.id.table].Valid() && k in cat[w.id.table].base
    requires StillThere(cat, now, w, c) && Keyed(cat[w.id.table], Target(cat, w), now[Target(cat, w)])
    requires Keyed(cat[w.id.table], w.id, mid[w.id])
    ensures var next, target := Restored(cat, now, mid, w, c), Target(cat, w);
            && (if Cell(mid, w.id, k) != Some(Get(w.row, k))
                then Cell(next, w.id, k) == Cell(mid, w.id, k) && Cell(now, target, k) == Some(Get(w.row, k))
                else Cell(next, w.id, k) == Cell(now, target, k))
            && (target != w.id ==> target !in next)
  {
    var s, target, img := cat[w.id.table], Target(cat, w), c.oldRow.value;
    UpdateLands(s, target.table, target, now[target], img.Keys * s.Settable(), img);
    if k in img {
      assert k in c.newRow.value && Flat(c.newRow.value[k]);
      assert Contains(Get(now[target], k), Get(w.row, k));
      GuardPinsValueIffFlat(Get(w.row, k));
    }
  }

  lemma UndoneInsert(cat: Catalog, start: Db, pre: seq<Entry>, e: Entry, now: Db, after: Db, id: RowId, k: string)
    requires e.write.Ins? && e.change.Some? && History(cat, start, pre) && History(cat, start, pre + [e])
    requires var mid := End(cat, start, pre);
             Legal(cat, mid, e.write) && End(cat, start, pre + [e]) == Written(cat, mid, e.write)
    requires FollowedTo(cat, start, pre, id, k)
    requires UndoneCell(cat, start, pre, Restored(cat, now, End(cat, start, pre), e.write, e.change.value), after, id, k)
    ensures UndoneCell(cat, start, pre + [e], now, after, id, k)
  {
    hide Recorded, Landed, History, Extends, End;
    var w, mid := e.write, End(cat, start, pre);
    LandedSnoc(cat, pre, e, id);
    assert (pre + [e])[..|pre|] == pre;
    var place := Place(cat, start, pre, id);
    assert Target(cat, w) !in mid;
    if id in start && place.Some? {
      WriteKeeps(cat, mid, w, place.value);
      RestoredElsewhere(cat, mid, w, e.change.value, now, place.value);
    }
    if id != Target(cat, w) { RestoredElsewhere(cat, mid, w, e.change.value, now, id); }
  }

  lemma UndoneDelete(cat: Catalog, start: Db, pre: seq<Entry>, e: Entry, now: Db, after: Db, id: RowId, k: string)
    requires e.write.Del? && e.change.Some? && History(cat, start, pre) && History(cat, start, pre + [e])
    requires var mid := End(cat, start, pre);
             Legal(cat, mid, e.write) && e.write.Table() in cat && End(cat, start, pre + [e]) == Written(cat, mid, e.write)
    requires FollowedTo(cat, start, pre, id, k)
    requires UndoneCell(cat, start, pre, Restored(cat, now, End(cat, start, pre), e.write, e.change.value), after, id, k)
    ensures UndoneCell(cat, start, pre + [e], now, after, id, k)
  {
    hide Recorded, Landed, History, Extends, End;
    var w, mid := e.write, End(cat, start, pre);
    LandedSnoc(cat, pre, e, id);
    assert (pre + [e])[..|pre|] == pre;
    var place := Place(cat, start, pre, id);
    if id in start && place.Some? && place.value != w.id {
      WriteKeeps(cat, mid, w, place.value);
      RestoredElsewhere(cat, mid, w, e.change.value, now, place.value);
    }
    if id != w.id { RestoredElsewhere(cat, mid, w, e.change.value, now, id); }
  }

  /** An update from one place to another, made and then undone, in one column. */
  ghost predicate StepsBack(mid: Db, end: Db, w: Write, target: RowId, now: Db, next: Db, k: string)
    requires w.Upd?
  {
    && w.id in mid && target in end && target.table == w.id.table && Cell(end, target, k) == Some(Get(w.row, k))
    && (target != w.id ==> target !in mid && target !in next)
    && (if Cell(mid, w.id, k) != Some(Get(w.row, k))
        then Cell(next, w.id, k) == Cell(mid, w.id, k) && Cell(now, target, k) == Some(Get(w.row, k))
        else Cell(next, w.id, k) == Cell(now, target, k))
    && forall p | p != w.id && p != target :: KeptBoth(mid, end, now, next, p, k)
  }

  ghost predicate KeptBoth(mid: Db, end: Db, now: Db, next: Db, p: RowId, k: string) {
    && (p in next <==> p in now) && Cell(next, p, k) == Cell(now, p, k)
    && (p in end <==> p in mid) && Cell(end, p, k) == Cell(mid, p, k)
  }

  lemma UpdateStepsBack(cat: Catalog, mid: Db, w: Write, c: Change, now: Db, k: string)
    requires w.Upd? && ValidDb(cat, mid) && ValidDb(cat, now) && Legal(cat, mid, w) && Faithful(cat, mid, w, c)
    requires FlatChange(c) && StillThere(cat, now, w, c) && k in cat[w.id.table].base
    ensures StepsBack(mid, Written(cat, mid, w), w, Target(cat, w), now, Restored(cat, now, mid, w, c), k)
  {
    var target := Target(cat, w);
    ValidRowIsKeyed(cat, mid, w.id);
    ValidRowIsKeyed(cat, now, target);
    WriteMoves(cat, mid, w);
    RestoredUpdate(cat, mid, w, c, now, k);
    hide ValidDb, Keyed, Faithful, StillThere, FlatChange, Restored, Written, KeptBoth;
    forall p | p != w.id && p != target
      ensures KeptBoth(mid, Written(cat, mid, w), now, Restored(cat, now, mid, w, c), p, k)
    {
      UpdateKeeps(cat, mid, w, c, now, p, k);
    }
  }

  lemma UpdateKeeps(cat: Catalog, mid: Db, w: Write, c: Change, now: Db, p: RowId, k: string)
    requires w.Upd? && w.Table() in cat && p != w.id && p != Target(cat, w)
    ensures KeptBoth(mid, Written(cat, mid, w), now, Restored(cat, now, mid, w, c), p, k)
  {
    hide Restored;
    RestoredElsewhere(cat, mid, w, c, now, p);
  }

  lemma UndoneUpdate(cat: Catalog, start: Db, pre: seq<Entry>, e: Entry, now: Db, next: Db, after: Db, id: RowId, k: string)
    requires e.write.Upd? && e.write.Table() in cat && History(cat, start, pre) && History(cat, start, pre + [e])
    requires StepsBack(End(cat, start, pre), End(cat, start, pre + [e]), e.write, Target(cat, e.write), now, next, k)
    requires FollowedTo(cat, start, pre, id, k) && UndoneCell(cat, start, pre, next, after, id, k)
    ensures UndoneCell(cat, start, pre + [e], now, after, id, k)
  {
    hide Landed, History, End, Cell;
    LandedSnoc(cat, pre, e, id);
    assert (pre + [e])[..|pre|] == pre;
    var place := Place(cat, start, pre, id);
    if place.Some? && place.value != e.write.id {
      assert KeptBoth(End(cat, start, pre), End(cat, start, pre + [e]), now, next, place.value, k);
    }
    if id !in start && id != e.write.id && id != Target(cat, e.write) {
      assert KeptBoth(End(cat, start, pre), End(cat, start, pre + [e]), now, next, id, k);
    }
  }

  lemma UndoneOneMore(cat: Catalog, start: Db, pre: seq<Entry>, e: Entry, now: Db, after: Db, id: RowId, k: string)
    requires e.change.Some? && History(cat, start, pre) && History(cat, start, pre + [e])
    requires var mid := End(cat, start, pre);
             ValidDb(cat, mid) && ValidDb(cat, now) && Legal(cat, mid, e.write) && e.write.Table() in cat &&
             Faithful(cat, mid, e.write, e.change.value) && End(cat, start, pre + [e]) == Written(cat, mid, e.write)
    requires FlatChange(e.change.value) && StillThere(cat, now, e.write, e.change.value)
    requires StoredCell(cat, id, k) && FollowedTo(cat, start, pre, id, k)
    requires UndoneCell(cat, start, pre, Restored(cat, now, End(cat, start, pre), e.write, e.change.value), after, id, k)
    ensures UndoneCell(cat, start, pre + [e], now, after, id, k)
  {
    hide ValidDb, Legal, Faithful, FlatChange, StillThere, Restored, Written, FollowedTo, UndoneCell, History, End;
    match e.write
    case Ins(_, _) => UndoneInsert(cat, start, pre, e, now, after, id, k);
    case Del(_) => UndoneDelete(cat, start, pre, e, now, after, id, k);
    case Upd(from, _) =>
      var mid := End(cat, start, pre);
      var next := Restored(cat, now, mid, e.write, e.change.value);
      if from.table == id.table {
        UpdateStepsBack(cat, mid, e.write, e.change.value, now, k);
        UndoneUpdate(cat, start, pre, e, now, next, after, id, k);
      } else {
        UndoneAway(cat, start, pre, e, now, after, id, k);
      }
  }

  /** An update of another table. */
  lemma UndoneAway(cat: Catalog, start: Db, pre: seq<Entry>, e: Entry, now: Db, after: Db, id: RowId, k: string)
    requires e.write.Upd? && e.change.Some? && e.write.id.table != id.table
    requires History(cat, start, pre) && History(cat, start, pre + [e])
    requires var mid := End(cat, start, pre);
             Legal(cat, mid, e.write) && e.write.Table() in cat && End(cat, start, pre + [e]) == Written(cat, mid, e.write)
    requires FollowedTo(cat, start, pre, id, k)
    requires UndoneCell(cat, start, pre, Restored(cat, now, End(cat, start, pre), e.write, e.change.value), after, id, k)
    ensures UndoneCell(cat, start, pre + [e], now, after, id, k)
  {
    hide Landed, History, End, Recorded, Extends, Legal;
    var mid := End(cat, start, pre);
    LandedSnoc(cat, pre, e, id);
    assert (pre + [e])[..|pre|] == pre;
    var place := Place(cat, start, pre, id);
    if place.Some? {
      WriteKeeps(cat, mid, e.write, place.value);
      RestoredElsewhere(cat, mid, e.write, e.change.value, now, place.value);
    }
    RestoredElsewhere(cat, mid, e.write, e.change.value, now, id);
  }

  lemma UndoneNothing(cat: Catalog, start: Db, pre: seq<Entry>, e: Entry, now: Db, after: Db, id: RowId, k: string)
    requires History(cat, start, pre) && History(cat, start, pre + [e]) && End(cat, start, pre + [e]) == End(cat, start, pre)
    requires e.write.Upd? && e.write.Table() in cat && Target(cat, e.write) == e.write.id
    requires var mid := End(cat, start, pre);
             e.write.id in mid && e.write.row == mid[e.write.id] &&
             (e.write.id.table == id.table ==> Cell(mid, e.write.id, k) == Some(Get(e.write.row, k)))
    requires FollowedTo(cat, start, pre, id, k) && UndoneCell(cat, start, pre, now, after, id, k)
    ensures UndoneCell(cat, start, pre + [e], now, after, id, k)
  {
    hide History, End, Landed, Cell;
    assert (pre + [e])[..|pre|] == pre;
    LandedSnoc(cat, pre, e, id);
  }

  lemma UnrecordedStays(cat: Catalog, mid: Db, e: Entry)
    requires ValidDb(cat, mid) && Legal(cat, mid, e.write) && Recorded(cat, mid, e) && e.change.None?
    ensures e.write.Upd? && e.write.id in mid && e.write.row == mid[e.write.id] && Written(cat, mid, e.write) == mid
    ensures e.write.id.table in cat && Target(cat, e.write) == e.write.id
    ensures forall k | k in cat[e.write.id.table].base :: Cell(mid, e.write.id, k) == Some(Get(e.write.row, k))
  {
    UnrecordedChangesNothing(cat, mid, e);
    ValidRowKeys(cat[e.write.id.table], mid[e.write.id]);
  }

  lemma {:induction false} FlatSnoc(es: seq<Entry>)
    requires es != [] && FlatLog(Log(es))
    ensures FlatLog(Log(es[..|es| - 1]))
    ensures es[|es| - 1].change.Some? ==> FlatChange(es[|es| - 1].change.value)
  {
    hide FlatChange;
    var pre, log := Log(es[..|es| - 1]), Log(es);
    assert forall i | 0 <= i < |pre| :: pre[i] == log[i];
    if es[|es| - 1].change.Some? { assert log[|log| - 1] == es[|es| - 1].change.value; }
  }

  /**
   * Windowed undo is exact.  When undoing a window of history goes through
   * without skips, every cell the window changed goes back to its value before
   * the window -- and still held what the window left, wherever the window left
   * its row, so no later change is overwritten -- and every other cell keeps its
   * present value; rows the window put somewhere new are gone from there.
   */
  lemma {:induction false} WindowedUndoIsExact(cat: Catalog, start: Db, es: seq<Entry>, now: Db, id: RowId, k: string)
    requires ValidDb(cat, start) && ValidDb(cat, now) && History(cat, start, es)
    requires FlatLog(Log(es)) && StoredCell(cat, id, k)
    ensures var o := Undo(cat, now, Log(es), false);
            o.Done? ==> UndoneCell(cat, start, es, now, o.db, id, k)
    decreases |es|
  {
    if es != [] {
      hide PlanFor, Undo, Reverse, ValidDb, Faithful, Legal, StillThere, Restored, Written, FlatChange, FlatLog,
        UndoneCell, FollowedTo, StoredCell, History, End, Log;
      var mid, pre, e := LastWrite(cat, start, es);
      FlatSnoc(es);
      Followed(cat, start, pre, id, k);
      if e.change.Some? {
        var c := e.change.value;
        UndoInvertsHistory(cat, start, pre, false);
        UndoGoesOn(cat, mid, e.write, c, Log(pre), now);
        if StillThere(cat, now, e.write, c) {
          WindowedUndoIsExact(cat, start, pre, Restored(cat, now, mid, e.write, c), id, k);
          var o := Undo(cat, now, Log(es), false);
          if o.Done? { UndoneOneMore(cat, start, pre, e, now, o.db, id, k); }
        }
      } else {
        WindowedUndoIsExact(cat, start, pre, now, id, k);
        UnrecordedStays(cat, mid, e);
        InBase(cat, id, k);
        var o := Undo(cat, now, Log(es), false);
        if o.Done? { UndoneNothing(cat, start, pre, e, now, o.db, id, k); }
      }
    }
  }

  lemma InBase(cat: Catalog, id: RowId, k: string)
    requires StoredCell(cat, id, k)
    ensures id.table in cat && k in cat[id.table].base
  {
  }
}
