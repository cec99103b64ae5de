/** as_of when rows change their keys: exactly when its answer is still right. */
module AsOfKeys {
  import opened Options
  import opened Tables
  import opened Capture
  import opened Inverse
  import opened Window
  import opened Conflicts
  import opened AsOf

  /** The oldest recorded write that puts a row at this place or takes one from it does not change a key. */
  ghost predicate OldestKeeps(cat: Catalog, es: seq<Entry>, id: RowId) {
    es == [] ||
    if Concerns(cat, es[0], id) then KeepsKey(cat, es[0].write) else OldestKeeps(cat, es[1..], id)
  }

  /** Every recorded update carries the whole old row, as in capture mode full. */
  ghost predicate FullOld(cat: Catalog, es: seq<Entry>) {
    forall i | 0 <= i < |es| && es[i].change.Some? :: WholeOld(cat, es[i].change.value)
  }

  ghost predicate WholeOld(cat: Catalog, c: Change) {
    c.op == U ==> c.table in cat && c.oldRow.Some? && c.oldRow.value.Keys == cat[c.table].Columns()
  }

  lemma FullTail(cat: Catalog, es: seq<Entry>)
    requires es != [] && FullOld(cat, es)
    ensures FullOld(cat, es[1..]) && (es[0].change.Some? ==> WholeOld(cat, es[0].change.value))
  {
    hide WholeOld;
    assert forall i | 0 <= i < |es| - 1 :: es[1..][i] == es[i + 1];
  }

  /** Not the row of this place: its key says another. */
  ghost predicate WrongKey(cat: Catalog, id: RowId, row: Row) {
    id.table in cat && exists k :: k in cat[id.table].pk && k in id.key && k in row && row[k] != id.key[k]
  }

  // ---- A place that was free -------------------------------------------------------------

  lemma OldestIs(now: Db, c: Change, win: seq<Change>, id: RowId)
    requires RowOf(c) == id && c.op == I
    ensures AsOfRow(now, [c] + win, id) == None
  {
    AsOfFirst(now, c, win, id);
  }

  /** A column of the key that an update changed is in its old image, with its old value. */
  lemma OldKeyColumn(cat: Catalog, start: Db, w: Write, c: Change) returns (k: string)
    requires w.Upd? && ValidDb(cat, start) && Legal(cat, start, w) && Faithful(cat, start, w, c) && !KeepsKey(cat, w)
    ensures k in cat[w.id.table].pk && k in w.id.key && k in Target(cat, w).key && w.id.key[k] != Target(cat, w).key[k]
    ensures RowOf(c) == Target(cat, w) && c.op == U && c.oldRow.Some? && k in c.oldRow.value && c.oldRow.value[k] == w.id.key[k]
  {
    var from, target := w.id, Target(cat, w);
    ValidRowIsKeyed(cat, start, from);
    DifferentValues(from.key, target.key);
    k :| k in from.key && from.key[k] != target.key[k];
    assert Get(start[from], k) == from.key[k] && target.key[k] == Get(w.row, k);
  }

  /** What the oldest change carries, the query shows. */
  lemma OldestShows(now: Db, c: Change, win: seq<Change>, k: string)
    requires c.op != I && c.oldRow.Some? && k in c.oldRow.value
    ensures var row := AsOfRow(now, [c] + win, RowOf(c)); row.Some? && k in row.value && row.value[k] == c.oldRow.value[k]
  {
    AsOfFirst(now, c, win, RowOf(c));
    assert k in OverlaidCols([c] + win, RowOf(c));
    hide OverlaidCols, Overlay, OldestOp;
    assert (Overlay(win, RowOf(c)) + c.oldRow.value)[k] == c.oldRow.value[k];
  }

  /** The oldest change moved a row here: the query says there was one, with the key it came from. */
  lemma MovedHere(cat: Catalog, start: Db, w: Write, c: Change, now: Db, win: seq<Change>)
    requires w.Upd? && ValidDb(cat, start) && Legal(cat, start, w) && Faithful(cat, start, w, c) && !KeepsKey(cat, w)
    ensures var row := AsOfRow(now, [c] + win, Target(cat, w));
            row.Some? && WrongKey(cat, Target(cat, w), row.value)
  {
    var k := OldKeyColumn(cat, start, w, c);
    OldestShows(now, c, win, k);
    hide ValidDb, Legal, Faithful, KeepsKey, AsOfRow;
  }

  /** A place free when the run began is free in the answer, or shows a row with another key. */
  lemma {:induction false} FreePlace(cat: Catalog, start: Db, es: seq<Entry>, id: RowId)
    requires ValidDb(cat, start) && History(cat, start, es) && id !in start
    ensures var row := AsOfRow(End(cat, start, es), Log(es), id);
            row.Some? ==> WrongKey(cat, id, row.value)
    decreases |es|
  {
    if es == [] {
      AsOfNothing(start, id);
    } else {
      hide AsOfRow, ValidDb, History, Log, WrongKey, Recorded, Written, Faithful;
      var mid := FirstEntry(cat, start, es);
      var e, now := es[0], End(cat, start, es);
      FreeStep(cat, start, e, id);
      if id !in mid { FreePlace(cat, mid, es[1..], id); }
      if e.change.None? {
        assert [] + Log(es[1..]) == Log(es[1..]);
      } else if id !in mid {
        AsOfFirst(now, e.change.value, Log(es[1..]), id);
      } else if e.write.Ins? {
        OldestIs(now, e.change.value, Log(es[1..]), id);
      } else {
        MovedHere(cat, start, e.write, e.change.value, now, Log(es[1..]));
      }
    }
  }

  /** What one entry can do to a free place: nothing, fill it by an insert, or by a row that moves in. */
  lemma FreeStep(cat: Catalog, start: Db, e: Entry, id: RowId)
    requires ValidDb(cat, start) && Extends(cat, start, e) && id !in start
    ensures Legal(cat, start, e.write) && e.write.Table() in cat
    ensures var w, after := e.write, Written(cat, start, e.write);
      && (e.change.None? ==> id !in after)
      && (e.change.Some? ==> Faithful(cat, start, w, e.change.value))
      && (id !in after ==> e.change.Some? ==> RowOf(e.change.value) != id)
      && (id in after && e.change.Some? ==>
           id == Target(cat, w) == RowOf(e.change.value) &&
           if w.Ins? then e.change.value.op == I else w.Upd? && !KeepsKey(cat, w))
  {
    if e.change.None? { UnrecordedChangesNothing(cat, start, e); }
  }

  // ---- Exactly when -----------------------------------------------------------------------

  lemma RightKey(cat: Catalog, db: Db, id: RowId)
    requires ValidDb(cat, db) && id in db
    ensures !WrongKey(cat, id, db[id])
  {
    ValidRowIsKeyed(cat, db, id);
  }

  /** The oldest recorded write here changed a key: the answer is wrong, whatever was captured. */
  lemma MovedIsWrong(cat: Catalog, start: Db, e: Entry, now: Db, win: seq<Change>, id: RowId)
    requires ValidDb(cat, start) && Extends(cat, start, e) && Concerns(cat, e, id) && !KeepsKey(cat, e.write)
    requires var mid := Written(cat, start, e.write);
             id !in mid ==> (AsOfRow(now, win, id).Some? ==> WrongKey(cat, id, AsOfRow(now, win, id).value))
    ensures !RightFor(now, [e.change.value] + win, start, id)
  {
    hide AsOfRow, WrongKey, Recorded;
    var w, c := e.write, e.change.value;
    RecordedFaithful(cat, start, e);
    FaithfulRow(cat, start, w, c);
    if id == w.id {
      RightKey(cat, start, id);
      AsOfFirst(now, c, win, id);
    } else {
      MovedHere(cat, start, w, c, now, win);
    }
  }

  lemma RecordedFaithful(cat: Catalog, db: Db, e: Entry)
    requires Extends(cat, db, e) && e.change.Some?
    ensures Legal(cat, db, e.write) && Faithful(cat, db, e.write, e.change.value) && e.write.Table() in cat
  {
  }

  /** The oldest recorded write here kept its key and carries the whole old row: the answer is right. */
  lemma KeptIsRight(cat: Catalog, start: Db, e: Entry, now: Db, win: seq<Change>, id: RowId)
    requires ValidDb(cat, start) && ValidDb(cat, now) && Extends(cat, start, e) && Concerns(cat, e, id) && KeepsKey(cat, e.write)
    requires ExactOld(start, e.write, e.change.value) && WholeOld(cat, e.change.value)
    requires id.table in cat ==> OverlaidCols(win, id) <= cat[id.table].Columns()
    ensures RightFor(now, [e.change.value] + win, start, id)
  {
    var w, c := e.write, e.change.value;
    RecordedFaithful(cat, start, e);
    FaithfulRow(cat, start, w, c);
    if w.Ins? {
      OldestIs(now, c, win, id);
    } else {
      ValidRowIsKeyed(cat, start, id);
      if id in now { ValidRowIsKeyed(cat, now, id); }
      SameValues(c.oldRow.value, start[id]);
      hide ValidDb, Legal, Faithful, ExactOld, Recorded, AsOfRow;
      WholeOldRow(now, c, win, start[id]);
    }
  }

  lemma WholeOldRow(now: Db, c: Change, win: seq<Change>, row: Row)
    requires c.op != I && c.oldRow == Some(row) && row != map[]
    requires OverlaidCols(win, RowOf(c)) <= row.Keys
    requires RowOf(c) in now ==> now[RowOf(c)].Keys <= row.Keys
    ensures AsOfRow(now, [c] + win, RowOf(c)) == Some(row)
  {
    AsOfFirst(now, c, win, RowOf(c));
    var k :| k in row;
    assert k in OverlaidCols([c] + win, RowOf(c));
    var cur := if RowOf(c) in now then now[RowOf(c)] else map[];
    assert cur + (Overlay(win, RowOf(c)) + row) == row;
  }

  /** Places an entry is not about. */
  lemma PassesBy(cat: Catalog, start: Db, e: Entry, now: Db, win: seq<Change>, id: RowId)
    requires ValidDb(cat, start) && Extends(cat, start, e) && e.write.Table() in cat && !Concerns(cat, e, id)
    ensures RightFor(now, (if e.change.Some? then [e.change.value] else []) + win, start, id) <==>
            RightFor(now, win, Written(cat, start, e.write), id)
  {
    hide AsOfRow, ValidDb;
    if e.change.Some? {
      RecordedFaithful(cat, start, e);
      FaithfulRow(cat, start, e.write, e.change.value);
      hide Faithful, Recorded;
      AsOfFirst(now, e.change.value, win, id);
    } else {
      UnrecordedChangesNothing(cat, start, e);
      assert [] + win == win;
    }
  }

  /** as_of is wrong about a place whenever the oldest recorded write there changed a key. */
  lemma {:induction false} AsOfRowIsWrong(cat: Catalog, start: Db, es: seq<Entry>, id: RowId)
    requires ValidDb(cat, start) && History(cat, start, es) && !OldestKeeps(cat, es, id)
    ensures !RightFor(End(cat, start, es), Log(es), start, id)
    decreases |es|
  {
    hide AsOfRow, ValidDb, History, Log, WrongKey, RightFor, Written, Concerns, KeepsKey, Extends;
    var mid := FirstEntry(cat, start, es);
    var e, now := es[0], End(cat, start, es);
    EntryTable(cat, start, e);
    if Concerns(cat, e, id) {
      ConcernsRecorded(cat, e, id);
      if id !in mid { FreePlace(cat, mid, es[1..], id); }
      MovedIsWrong(cat, start, e, now, Log(es[1..]), id);
    } else {
      AsOfRowIsWrong(cat, mid, es[1..], id);
      PassesBy(cat, start, e, now, Log(es[1..]), id);
    }
  }

  lemma ConcernsRecorded(cat: Catalog, e: Entry, id: RowId)
    requires Concerns(cat, e, id)
    ensures e.change.Some?
  {
  }

  lemma {:induction false} AsOfRowIsRight(cat: Catalog, start: Db, es: seq<Entry>, id: RowId)
    requires ValidDb(cat, start) && History(cat, start, es) && ExactHistory(cat, start, es)
    requires FullOld(cat, es) && OldestKeeps(cat, es, id)
    ensures RightFor(End(cat, start, es), Log(es), start, id)
    decreases |es|
  {
    if es == [] {
      AsOfNothing(start, id);
    } else {
      hide AsOfRow, ValidDb, History, Log, RightFor, Written, Concerns, KeepsKey, Extends, WholeOld, ExactOld, ExactHistory,
        OverlaidCols, FullOld;
      var mid := FirstEntry(cat, start, es);
      var e, now := es[0], End(cat, start, es);
      EntryTable(cat, start, e);
      FirstExact(cat, start, es);
      FullTail(cat, es);
      if Concerns(cat, e, id) {
        ConcernsRecorded(cat, e, id);
        EndIsValid(cat, mid, es[1..]);
        if id.table in cat { OverlaidInColumns(cat, mid, es[1..], id); }
        KeptIsRight(cat, start, e, now, Log(es[1..]), id);
      } else {
        AsOfRowIsRight(cat, mid, es[1..], id);
        PassesBy(cat, start, e, now, Log(es[1..]), id);
      }
    }
  }

  /**
   * With full images, as_of is right about a place exactly when the oldest recorded
   * write that put a row there or took one away did not do so by changing a key.
   */
  lemma FullRowIff(cat: Catalog, start: Db, es: seq<Entry>, id: RowId)
    requires ValidDb(cat, start) && History(cat, start, es) && ExactHistory(cat, start, es) && FullOld(cat, es)
    ensures RightFor(End(cat, start, es), Log(es), start, id) <==> OldestKeeps(cat, es, id)
  {
    hide RightFor, ValidDb, History, ExactHistory, FullOld, OldestKeeps;
    if OldestKeeps(cat, es, id) { AsOfRowIsRight(cat, start, es, id); } else { AsOfRowIsWrong(cat, start, es, id); }
  }

  // ---- Any capture mode ----------------------------------------------------------------------

  /** What the query has for a key: the present row, and over it the oldest values logged under the key. */
  function Compound(now: Db, win: seq<Change>, id: RowId): Row {
    (if id in now then now[id] else map[]) + Overlay(win, id)
  }

  /** Outside these columns, the query shows for the key what the row at it was. */
  ghost predicate ShowsBut(cat: Catalog, past: Row, shown: Row, cols: set<string>, id: RowId) {
    id.table in cat && forall k | k in cat[id.table].Columns() && k !in cols :: k in shown && shown[k] == Get(past, k)
  }

  /**
   * The row here is told: deleted in the end, or still here; or it was moved away, and the
   * columns that no update before the move carries happen to be shown by what came after.
   */
  ghost predicate ToldFrom(cat: Catalog, start: Db, es: seq<Entry>, now: Db, cols: set<string>, id: RowId)
    decreases |es|
  {
    es == [] ||
    var e, rest := es[0], es[1..];
    if !Concerns(cat, e, id) then e.write.Table() in cat && ToldFrom(cat, Written(cat, start, e.write), rest, now, cols, id)
    else if !e.write.Upd? then true
    else if KeepsKey(cat, e.write) then
      ToldFrom(cat, Written(cat, start, e.write), rest, now, cols + e.change.value.oldRow.GetOr(map[]).Keys, id)
    else id in start && ShowsBut(cat, start[id], Compound(now, Log(rest), id), cols, id)
  }

  /** And the oldest recorded write here must keep its key besides. */
  ghost predicate Told(cat: Catalog, start: Db, es: seq<Entry>, now: Db, id: RowId) {
    OldestKeeps(cat, es, id) && ToldFrom(cat, start, es, now, {}, id)
  }

  lemma CompoundPasses(now: Db, c: Change, win: seq<Change>, id: RowId)
    ensures RowOf(c) != id ==> Compound(now, [c] + win, id) == Compound(now, win, id)
    ensures RowOf(c) == id && c.oldRow.Some? ==> Compound(now, [c] + win, id) == Compound(now, win, id) + c.oldRow.value
  {
    var all := [c] + win;
    assert all[1..] == win;
    AsOfFirst(now, c, win, id);
    if RowOf(c) != id {
      assert forall k :: OldValue(all, id, k) == OldValue(win, id, k);
      assert Overlay(all, id) == Overlay(win, id);
    }
  }

  lemma NothingShows(cat: Catalog, now: Db, cols: set<string>, id: RowId)
    requires ValidDb(cat, now) && id in now
    ensures ShowsBut(cat, now[id], Compound(now, [], id), cols, id)
  {
    ValidRowIsKeyed(cat, now, id);
    assert Overlay([], id) == map[];
  }

  /** What one recorded write about a row that is there shows of it. */
  lemma ShownStep(cat: Catalog, start: Db, e: Entry, now: Db, win: seq<Change>, cols: set<string>, id: RowId)
    requires ValidDb(cat, start) && Extends(cat, start, e) && Concerns(cat, e, id) && id in start
    requires ExactOld(start, e.write, e.change.value)
    ensures id.table in cat && !e.write.Ins? && e.write.id == id
    ensures var shown := ShowsBut(cat, start[id], Compound(now, [e.change.value] + win, id), cols, id);
      && (e.write.Del? ==> shown)
      && (e.write.Upd? && !KeepsKey(cat, e.write) ==>
           (shown <==> ShowsBut(cat, start[id], Compound(now, win, id), cols, id)))
      && (e.write.Upd? && KeepsKey(cat, e.write) ==>
           var mid, more := Written(cat, start, e.write), cols + e.change.value.oldRow.GetOr(map[]).Keys;
           id in mid && (shown <==> ShowsBut(cat, mid[id], Compound(now, win, id), more, id)))
  {
    var w, c := e.write, e.change.value;
    RecordedFaithful(cat, start, e);
    FaithfulRow(cat, start, w, c);
    ValidRowIsKeyed(cat, start, id);
    hide Faithful, Recorded, ValidDb;
    CompoundPasses(now, c, win, id);
    if w.Upd? && KeepsKey(cat, w) {
      ValidRowKeys(cat[id.table], w.row);
      UpdateShows(cat, start, w, c, Compound(now, win, id), cols);
    } else {
      hide Compound;
    }
  }

  lemma UpdateShows(cat: Catalog, start: Db, w: Write, c: Change, shown: Row, cols: set<string>)
    requires w.Upd? && w.id in start && w.id.table in cat && c.oldRow.Some? && ExactOld(start, w, c)
    requires start[w.id].Keys == w.row.Keys == cat[w.id.table].Columns()
    ensures ShowsBut(cat, start[w.id], shown + c.oldRow.value, cols, w.id) <==>
            ShowsBut(cat, w.row, shown, cols + c.oldRow.value.Keys, w.id)
  {
    forall k | k in cat[w.id.table].Columns() && k !in c.oldRow.value
      ensures Get(start[w.id], k) == Get(w.row, k)
    {
    }
  }

  lemma {:induction false} ShownIff(cat: Catalog, start: Db, es: seq<Entry>, cols: set<string>, id: RowId)
    requires ValidDb(cat, start) && History(cat, start, es) && ExactHistory(cat, start, es) && id in start
    ensures ShowsBut(cat, start[id], Compound(End(cat, start, es), Log(es), id), cols, id) <==>
            ToldFrom(cat, start, es, End(cat, start, es), cols, id)
    decreases |es|
  {
    if es == [] {
      NothingShows(cat, start, cols, id);
    } else {
      hide ValidDb, History, Log, Written, Concerns, KeepsKey, Extends, ExactOld, ExactHistory, Compound, ShowsBut;
      var mid := FirstEntry(cat, start, es);
      var e, now, win := es[0], End(cat, start, es), Log(es[1..]);
      EntryTable(cat, start, e);
      FirstExact(cat, start, es);
      if Concerns(cat, e, id) {
        ConcernsRecorded(cat, e, id);
        ShownStep(cat, start, e, now, win, cols, id);
        if e.write.Upd? && KeepsKey(cat, e.write) {
          ShownIff(cat, mid, es[1..], cols + e.change.value.oldRow.GetOr(map[]).Keys, id);
        }
      } else {
        PassedBy(cat, start, e, now, win, id);
        ShownIff(cat, mid, es[1..], cols, id);
      }
    }
  }

  lemma PassedBy(cat: Catalog, start: Db, e: Entry, now: Db, win: seq<Change>, id: RowId)
    requires ValidDb(cat, start) && Extends(cat, start, e) && e.write.Table() in cat && !Concerns(cat, e, id)
    ensures var mid := Written(cat, start, e.write);
            (id in mid <==> id in start) && (id in start ==> mid[id] == start[id])
    ensures Compound(now, (if e.change.Some? then [e.change.value] else []) + win, id) == Compound(now, win, id)
  {
    if e.change.Some? {
      hide Faithful, ValidDb, Legal, Extends, Written;
      RecordedFaithful(cat, start, e);
      FaithfulRow(cat, start, e.write, e.change.value);
      OtherPlace(cat, start, e.write, id);
      CompoundPasses(now, e.change.value, win, id);
    } else {
      UnrecordedChangesNothing(cat, start, e);
      hide Faithful, Recorded, ValidDb, Legal, Extends, Written, Compound;
      assert [] + win == win;
    }
  }

  lemma OtherPlace(cat: Catalog, db: Db, w: Write, id: RowId)
    requires w.Table() in cat && Target(cat, w) != id && (w.Upd? ==> w.id != id)
    ensures id in Written(cat, db, w) <==> id in db
    ensures id in db ==> Written(cat, db, w)[id] == db[id]
  {
  }

  /** The first write here is an update in place: the query shows a row, so it is about its columns. */
  lemma UpdatedIff(cat: Catalog, start: Db, e: Entry, now: Db, win: seq<Change>, id: RowId)
    requires ValidDb(cat, start) && ValidDb(cat, now) && Extends(cat, start, e) && Concerns(cat, e, id)
    requires e.write.Upd? && KeepsKey(cat, e.write) && ExactOld(start, e.write, e.change.value)
    requires id.table in cat ==> OverlaidCols(win, id) <= cat[id.table].Columns()
    ensures id in start
    ensures RightFor(now, [e.change.value] + win, start, id) <==>
            ShowsBut(cat, start[id], Compound(now, [e.change.value] + win, id), {}, id)
  {
    hide Faithful, Recorded, ValidDb, Legal, AsOfRow, Compound, OverlaidCols, ShowsBut;
    var c := e.change.value;
    RecordedFaithful(cat, start, e);
    FaithfulRow(cat, start, e.write, c);
    CarriesSome(cat, start, e.write, c);
    ValidRowIsKeyed(cat, start, id);
    if id in now { ValidRowIsKeyed(cat, now, id); }
    hide Extends, ExactOld, Schema.Columns;
    UpdateShowsRow(now, c, win, id);
    CompoundKeys(now, c, win, id, cat[id.table].Columns());
    SameShown(cat, start[id], Compound(now, [c] + win, id), id);
  }

  lemma SameShown(cat: Catalog, past: Row, shown: Row, id: RowId)
    requires id.table in cat && past.Keys == cat[id.table].Columns() && shown.Keys <= past.Keys
    ensures shown == past <==> ShowsBut(cat, past, shown, {}, id)
  {
    if ShowsBut(cat, past, shown, {}, id) {
      assert past.Keys <= shown.Keys;
      SameValues(shown, past);
    }
  }

  lemma UpdateShowsRow(now: Db, c: Change, win: seq<Change>, id: RowId)
    requires RowOf(c) == id && c.op == U && c.oldRow.Some? && c.oldRow.value.Keys != {}
    ensures AsOfRow(now, [c] + win, id) == Some(Compound(now, [c] + win, id))
  {
    AsOfFirst(now, c, win, id);
    hide Overlay, OldestOp;
    assert OverlaidCols([c] + win, id) != {};
  }

  lemma CompoundKeys(now: Db, c: Change, win: seq<Change>, id: RowId, cols: set<string>)
    requires RowOf(c) == id && c.oldRow.Some? && c.oldRow.value.Keys <= cols && OverlaidCols(win, id) <= cols
    requires id in now ==> now[id].Keys <= cols
    ensures Compound(now, [c] + win, id).Keys <= cols
  {
    AsOfFirst(now, c, win, id);
    hide OldestOp, OldValue;
  }

  lemma CarriesSome(cat: Catalog, start: Db, w: Write, c: Change)
    requires w.Upd? && Legal(cat, start, w) && Faithful(cat, start, w, c)
    ensures c.op == U && c.oldRow.Some? && c.oldRow.value.Keys != {} && w.id.table in cat
    ensures c.oldRow.value.Keys <= cat[w.id.table].Columns() && w.id in start
  {
    assert c.oldRow.value.Keys * cat[w.id.table].Settable() != {};
  }

  /**
   * as_of is right about a place, in any capture mode, exactly when the oldest recorded
   * write there kept its key and, if an update in place was first and the row was then
   * moved away before it was deleted, the columns no update before the move carries are
   * shown alike by whatever the query finds under the key after it.
   */
  lemma {:induction false} AsOfRowIff(cat: Catalog, start: Db, es: seq<Entry>, id: RowId)
    requires ValidDb(cat, start) && History(cat, start, es) && ExactHistory(cat, start, es)
    ensures RightFor(End(cat, start, es), Log(es), start, id) <==> Told(cat, start, es, End(cat, start, es), id)
    decreases |es|
  {
    if es == [] {
      AsOfNothing(start, id);
    } else {
      hide AsOfRow, ValidDb, History, Log, RightFor, Written, Concerns, KeepsKey, Extends, ExactOld, ExactHistory, OverlaidCols,
        Compound, ShowsBut, Told;
      var mid := FirstEntry(cat, start, es);
      EntryTable(cat, start, es[0]);
      ToldOnce(cat, start, es, End(cat, start, es), id);
      if Concerns(cat, es[0], id) {
        ConcernedIff(cat, start, es, id);
      } else {
        FirstExact(cat, start, es);
        AsOfRowIff(cat, mid, es[1..], id);
        PassesBy(cat, start, es[0], End(cat, start, es), Log(es[1..]), id);
      }
    }
  }

  lemma ToldOnce(cat: Catalog, start: Db, es: seq<Entry>, now: Db, id: RowId)
    requires es != [] && es[0].write.Table() in cat
    ensures Told(cat, start, es, now, id) <==>
      if !Concerns(cat, es[0], id) then Told(cat, Written(cat, start, es[0].write), es[1..], now, id)
      else KeepsKey(cat, es[0].write) && (es[0].write.Upd? ==> ToldFrom(cat, start, es, now, {}, id))
  {
    hide ShowsBut, Compound, Written;
  }

  /** The oldest entry is about the place. */
  lemma ConcernedIff(cat: Catalog, start: Db, es: seq<Entry>, id: RowId)
    requires ValidDb(cat, start) && History(cat, start, es) && ExactHistory(cat, start, es)
    requires es != [] && Concerns(cat, es[0], id)
    ensures RightFor(End(cat, start, es), Log(es), start, id) <==>
      KeepsKey(cat, es[0].write) && (es[0].write.Upd? ==> ToldFrom(cat, start, es, End(cat, start, es), {}, id))
  {
    hide AsOfRow, ValidDb, History, Log, RightFor, Written, Concerns, KeepsKey, Extends, ExactOld, ExactHistory, OverlaidCols,
      Compound, ShowsBut, ToldFrom;
    var mid := FirstEntry(cat, start, es);
    var e, now, win := es[0], End(cat, start, es), Log(es[1..]);
    EntryTable(cat, start, e);
    FirstExact(cat, start, es);
    EndIsValid(cat, mid, es[1..]);
    if id.table in cat { OverlaidInColumns(cat, mid, es[1..], id); }
    ConcernsRecorded(cat, e, id);
    if !KeepsKey(cat, e.write) {
      AsOfRowIsWrong(cat, start, es, id);
    } else if !e.write.Upd? {
      AsOfOneMore(cat, start, e, now, win, id);
    } else {
      UpdatedIff(cat, start, e, now, win, id);
      ShownIff(cat, start, es, {}, id);
    }
  }

  /** And about a whole table exactly when that holds of its every place. */
  lemma AsOfTableIff(cat: Catalog, start: Db, es: seq<Entry>, table: string)
    requires ValidDb(cat, start) && History(cat, start, es) && ExactHistory(cat, start, es)
    ensures AsOfTable(End(cat, start, es), Log(es), table) == TableAt(start, table) <==>
            forall id: RowId | id.table == table :: Told(cat, start, es, End(cat, start, es), id)
  {
    hide RightFor, ValidDb, History, ExactHistory, Told, AsOfTable, TableAt;
    RowByRow(End(cat, start, es), Log(es), start, table);
    forall id: RowId
      ensures RightFor(End(cat, start, es), Log(es), start, id) <==> Told(cat, start, es, End(cat, start, es), id)
    {
      AsOfRowIff(cat, start, es, id);
    }
  }
}
