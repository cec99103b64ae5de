/** Exactly when an undo meets a conflict. */
module Conflicts {
  import opened Options
  import opened Json
  import opened Tables
  import opened Statements
  import opened Capture
  import opened Plan
  import opened Inverse
  import opened Window

  ghost predicate KeepsKey(cat: Catalog, w: Write) {
    w.Upd? ==> w.Table() in cat && Target(cat, w) == w.id
  }

  /** No recorded update moves a row to another key. */
  ghost predicate KeepsKeys(cat: Catalog, es: seq<Entry>) {
    forall i | 0 <= i < |es| :: KeepsKey(cat, es[i].write)
  }

  lemma KeepsKeysSnoc(cat: Catalog, es: seq<Entry>)
    requires es != []
    ensures KeepsKeys(cat, es) <==> KeepsKeys(cat, es[..|es| - 1]) && KeepsKey(cat, es[|es| - 1].write)
  {
  }

  /** `live` shows `row`'s values in these columns, as far as a guard can tell. */
  ghost predicate Covers(live: Row, row: Row, cols: set<string>) {
    forall k | k in cols :: Contains(Get(live, k), Get(row, k))
  }

  ghost predicate Shows(s: Schema, db: Db, id: RowId, row: Row, cols: set<string>) {
    id in db && Covers(db[id], row, cols * s.base)
  }

  /** What the live tables must look like for one recorded write to be undone. */
  ghost predicate StillThere(cat: Catalog, db: Db, w: Write, c: Change)
    requires w.Table() in cat
  {
    var s, target := cat[w.Table()], Target(cat, w);
    match w
    case Ins(_, row) => Shows(s, db, target, row, s.base)
    case Del(id) => id !in db
    case Upd(id, row) => Shows(s, db, target, row, c.newRow.GetOr(map[]).Keys) && (target == id || id !in db)
  }

  lemma GuardIsShows(s: Schema, live: Row, row: Row, img: Row)
    requires s.Valid() && live.Keys == s.Columns() && Agrees(s, img, row)
    ensures Holds(live, img - s.derived) <==> Covers(live, row, img.Keys * s.base)
  {
    var guard := img - s.derived;
    assert guard.Keys == img.Keys * s.base;
    if Holds(live, guard) {
      forall k | k in img.Keys * s.base ensures Contains(Get(live, k), Get(row, k)) {
        assert k in guard && guard[k] == img[k];
      }
    }
  }

  /** The tables after the undo of one write took effect on `db`. */
  ghost function Restored(cat: Catalog, db: Db, before: Db, w: Write, c: Change): Db
    requires w.Table() in cat
  {
    var target := Target(cat, w);
    match w
    case Ins(_, _) => db - {target}
    case Del(id) => if id in before then db[id := before[id]] else db
    case Upd(id, _) =>
      if target in db && c.oldRow.Some? then
        var s, img := cat[id.table], c.oldRow.value;
        (db - {target})[id := Assign(s, db[target], img.Keys * s.Settable(), img)]
      else db
  }

  lemma UndoInsertHits(cat: Catalog, before: Db, w: Write, c: Change, db: Db)
    requires w.Ins? && Legal(cat, before, w) && cat[w.table].Valid() && Faithful(cat, before, w, c)
    requires Target(cat, w) in db ==> db[Target(cat, w)].Keys == cat[w.table].Columns()
    ensures PlanStep(cat, c, false).Planned? && PlanStep(cat, c, false).stmt.Table() in cat
    ensures Exec(cat, db, PlanStep(cat, c, false).stmt) ==
            if StillThere(cat, db, w, c) then Hit(Restored(cat, db, before, w, c)) else Miss
  {
    var s, id := cat[w.table], Target(cat, w);
    UndoInsertInverts(cat, before, w, c);
    KeyOfKey(s, w.row);
    if id in db {
      GuardIsShows(s, db[id], w.row, c.newRow.value);
      assert c.newRow.value.Keys * s.base == s.base;
    }
  }

  lemma UndoDeleteHits(cat: Catalog, before: Db, w: Write, c: Change, db: Db)
    requires w.Del? && Legal(cat, before, w) && Faithful(cat, before, w, c)
    requires cat[w.id.table].Valid() && cat[w.id.table].ValidRow(before[w.id]) && cat[w.id.table].Key(before[w.id]) == w.id.key
    ensures PlanStep(cat, c, false).Planned? && PlanStep(cat, c, false).stmt.Table() in cat
    ensures Exec(cat, db, PlanStep(cat, c, false).stmt) ==
            if StillThere(cat, db, w, c) then Hit(Restored(cat, db, before, w, c)) else Miss
  {
    var s, row, img := cat[w.id.table], before[w.id], c.oldRow.value;
    UndoDeleteInverts(cat, before, w, c);
    SameStoredSameRow(s, img, row);
  }

  /** The key a reversing UPDATE gives its row back. */
  lemma UndoLandsBack(cat: Catalog, before: Db, w: Write, c: Change)
    requires w.Upd? && Legal(cat, before, w) && Faithful(cat, before, w, c)
    requires cat[w.id.table].Valid() && Keyed(cat[w.id.table], w.id, before[w.id])
    ensures var s, img, target := cat[w.id.table], c.oldRow.value, Target(cat, w);
            (map k | k in s.pk :: if k in img.Keys * s.Settable() then Get(img, k) else Get(target.key, k)) == w.id.key
  {
    var s, img, target := cat[w.id.table], c.oldRow.value, Target(cat, w);
    forall k | k in s.pk
      ensures (if k in img.Keys * s.Settable() then Get(img, k) else Get(target.key, k)) == w.id.key[k]
    {
      assert target.key[k] == Get(w.row, k) && w.id.key[k] == Get(before[w.id], k);
      if k in img { assert img[k] == Get(before[w.id], k); }
    }
  }

  /** An UPDATE by key, and the place it leaves its row at. */
  lemma UpdateHits(cat: Catalog, db: Db, id: RowId, dest: RowId, cols: set<string>, img: Row, guard: Row)
    requires id.table in cat && cat[id.table].Valid() && dest.table == id.table && !NullInKey(dest.key)
    requires id in db ==> Keyed(cat[id.table], id, db[id])
    requires dest.key == map k | k in cat[id.table].pk :: if k in cols then Get(img, k) else Get(id.key, k)
    ensures var e := Exec(cat, db, UpdateStmt(id, cols, img, Some(guard)));
            if id in db && Holds(db[id], guard) && (dest == id || dest !in db)
            then e == Hit((db - {id})[dest := Assign(cat[id.table], db[id], cols, img)])
            else !e.Hit? && (dest == id ==> e.Miss?)
  {
    if id in db {
      var s := cat[id.table];
      var row := Assign(s, db[id], cols, img);
      UpdateLands(s, id.table, id, db[id], cols, img);
      assert RowId(id.table, s.Key(row)) == dest;
    }
  }

  lemma UndoUpdateHits(cat: Catalog, before: Db, w: Write, c: Change, db: Db)
    requires w.Upd? && Legal(cat, before, w) && Faithful(cat, before, w, c)
    requires cat[w.id.table].Valid() && Keyed(cat[w.id.table], w.id, before[w.id]) && !NullInKey(w.id.key)
    requires Target(cat, w) in db ==> Keyed(cat[w.id.table], Target(cat, w), db[Target(cat, w)])
    ensures PlanStep(cat, c, false).Planned? && PlanStep(cat, c, false).stmt.Table() in cat
    ensures var e := Exec(cat, db, PlanStep(cat, c, false).stmt);
            if StillThere(cat, db, w, c) then e == Hit(Restored(cat, db, before, w, c)) else !e.Hit?
  {
    hide Exec;
    var s, target, img := cat[w.id.table], Target(cat, w), c.oldRow.value;
    UndoUpdatePlan(cat, before, w, c);
    if target in db { GuardIsShows(s, db[target], w.row, c.newRow.value); }
    UndoLandsBack(cat, before, w, c);
    UpdateHits(cat, db, target, w.id, img.Keys * s.Settable(), img, c.newRow.value - s.derived);
  }

  lemma UndoHitsIff(cat: Catalog, before: Db, w: Write, c: Change, db: Db)
    requires ValidDb(cat, before) && ValidDb(cat, db)
    requires Legal(cat, before, w) && Faithful(cat, before, w, c)
    ensures PlanStep(cat, c, false).Planned? && PlanStep(cat, c, false).stmt.Table() in cat
    ensures var e := Exec(cat, db, PlanStep(cat, c, false).stmt);
            if StillThere(cat, db, w, c) then e == Hit(Restored(cat, db, before, w, c)) else !e.Hit?
  {
    var id := Target(cat, w);
    if id in db { ValidRowIsKeyed(cat, db, id); }
    match w
    case Ins(_, _) => UndoInsertHits(cat, before, w, c, db);
    case Del(_) => UndoDeleteHits(cat, before, w, c, db);
    case Upd(from, _) =>
      ValidRowIsKeyed(cat, before, from);
      assert !NullInKey(from.key) by { assert from.key == cat[from.table].Key(before[from]); }
      UndoUpdateHits(cat, before, w, c, db);
  }

  function RowOf(c: Change): RowId { RowId(c.table, c.pk) }

  lemma FaithfulRow(cat: Catalog, before: Db, w: Write, c: Change)
    requires Legal(cat, before, w) && Faithful(cat, before, w, c)
    ensures RowOf(c) == Target(cat, w)
  {
  }

  lemma RestoredIsValid(cat: Catalog, before: Db, w: Write, c: Change, db: Db)
    requires ValidDb(cat, before) && ValidDb(cat, db)
    requires Legal(cat, before, w) && Faithful(cat, before, w, c)
    requires StillThere(cat, db, w, c)
    ensures ValidDb(cat, Restored(cat, db, before, w, c))
  {
    UndoHitsIff(cat, before, w, c, db);
    ExecKeepsValid(cat, db, PlanStep(cat, c, false).stmt);
  }

  // ---- A whole window -----------------------------------------------------------

  /** A recorded write that takes a row from this place or puts one there. */
  ghost predicate Concerns(cat: Catalog, e: Entry, id: RowId) {
    e.change.Some? && e.write.Table() in cat && (Target(cat, e.write) == id || (e.write.Upd? && e.write.id == id))
  }

  ghost predicate Concerned(cat: Catalog, es: seq<Entry>, id: RowId) {
    exists i | 0 <= i < |es| :: Concerns(cat, es[i], id)
  }

  /** The columns undo looks at, of the row that a run leaves at this place, followed back where it came from. */
  ghost function Checked(cat: Catalog, es: seq<Entry>, id: RowId): set<string> {
    if es == [] || id.table !in cat then {}
    else
      var pre, e := es[..|es| - 1], es[|es| - 1];
      if !Concerns(cat, e, id) then Checked(cat, pre, id)
      else match e.write
        case Ins(_, _) => cat[id.table].base
        case Del(_) => {}
        case Upd(from, _) =>
          if Target(cat, e.write) == id
          then e.change.value.newRow.GetOr(map[]).Keys * cat[id.table].base + Checked(cat, pre, from)
          else {}
  }

  /** At this place, `db` still looks as the run left it in `end`. */
  ghost predicate AsLeft(cat: Catalog, db: Db, end: Db, es: seq<Entry>, id: RowId) {
    Concerned(cat, es, id) ==>
      && (id in db <==> id in end)
      && (id in end ==> id in db && Covers(db[id], end[id], Checked(cat, es, id)))
  }

  lemma ConcernedSnoc(cat: Catalog, es: seq<Entry>, e: Entry, id: RowId)
    ensures Concerned(cat, es + [e], id) <==> Concerns(cat, e, id) || Concerned(cat, es, id)
    ensures (es + [e])[..|es|] == es
  {
    var all := es + [e];
    if Concerns(cat, e, id) { assert Concerns(cat, all[|es|], id); }
    if Concerned(cat, es, id) {
      var i :| 0 <= i < |es| && Concerns(cat, es[i], id);
      assert Concerns(cat, all[i], id);
    }
  }

  lemma {:induction false} UnconcernedUnchecked(cat: Catalog, es: seq<Entry>, id: RowId)
    requires !Concerned(cat, es, id)
    ensures Checked(cat, es, id) == {}
    decreases |es|
  {
    if es != [] {
      var n := |es| - 1;
      assert es == es[..n] + [es[n]];
      ConcernedSnoc(cat, es[..n], es[n], id);
      UnconcernedUnchecked(cat, es[..n], id);
    }
  }

  lemma {:induction false} CheckedIsStored(cat: Catalog, es: seq<Entry>, id: RowId)
    requires id.table in cat
    ensures Checked(cat, es, id) <= cat[id.table].base
    decreases |es|
  {
    if es != [] {
      var pre, e := es[..|es| - 1], es[|es| - 1];
      CheckedIsStored(cat, pre, id);
      if Concerns(cat, e, id) && e.write.Upd? { CheckedIsStored(cat, pre, e.write.id); }
    }
  }

  /** Places the newest write is not about. */
  lemma LeftElsewhere(cat: Catalog, before: Db, e: Entry, db: Db, es: seq<Entry>, id: RowId)
    requires Legal(cat, before, e.write) && e.change.Some? && Faithful(cat, before, e.write, e.change.value)
    requires !Concerns(cat, e, id)
    ensures AsLeft(cat, db, Written(cat, before, e.write), es + [e], id) <==>
            AsLeft(cat, Restored(cat, db, before, e.write, e.change.value), before, es, id)
  {
    hide Assign;
    ConcernedSnoc(cat, es, e, id);
  }

  lemma LeftInserted(cat: Catalog, before: Db, e: Entry, db: Db, es: seq<Entry>)
    requires e.write.Ins? && Legal(cat, before, e.write) && e.change.Some? && Faithful(cat, before, e.write, e.change.value)
    ensures var w, c, id := e.write, e.change.value, Target(cat, e.write);
            AsLeft(cat, db, Written(cat, before, w), es + [e], id) <==>
            StillThere(cat, db, w, c) && AsLeft(cat, Restored(cat, db, before, w, c), before, es, id)
  {
    ConcernedSnoc(cat, es, e, Target(cat, e.write));
    assert cat[e.write.table].base * cat[e.write.table].base == cat[e.write.table].base;
  }

  lemma LeftDeleted(cat: Catalog, before: Db, e: Entry, db: Db, es: seq<Entry>)
    requires e.write.Del? && Legal(cat, before, e.write) && e.change.Some? && Faithful(cat, before, e.write, e.change.value)
    requires e.write.id.table in cat
    ensures var w, c, id := e.write, e.change.value, e.write.id;
            AsLeft(cat, db, Written(cat, before, w), es + [e], id) <==>
            StillThere(cat, db, w, c) && AsLeft(cat, Restored(cat, db, before, w, c), before, es, id)
  {
    ConcernedSnoc(cat, es, e, e.write.id);
    forall k { ContainsItself(Get(before[e.write.id], k)); }
  }

  /** Undoing an update asks for its own columns and leaves the rest to the older changes. */
  lemma CoversAfterAssign(s: Schema, live: Row, row: Row, older: Row, id: RowId, img: Row, rest: set<string>)
    requires s.Valid() && Keyed(s, id, live) && Agrees(s, img, older) && rest <= s.base
    requires forall k | k in s.base && Get(older, k) != Get(row, k) :: k in img
    requires forall k | k in s.always :: Get(row, k) == Get(older, k)
    ensures Covers(live, row, img.Keys * s.base + rest) <==>
            Covers(live, row, img.Keys * s.base) &&
            Covers(Assign(s, live, img.Keys * s.Settable(), img), older, rest)
  {
    var cols := img.Keys * s.Settable();
    var back := Assign(s, live, cols, img);
    UpdateLands(s, id.table, id, live, cols, img);
    forall k | k in rest
      ensures Contains(Get(back, k), Get(older, k)) <==> k in cols || Contains(Get(live, k), Get(row, k))
    {
      if k in cols { ContainsItself(Get(older, k)); }
    }
  }

  /** What an update adds to what is asked of the place it put its row at, and of the place it took it from. */
  lemma UpdateAsks(cat: Catalog, e: Entry, es: seq<Entry>)
    requires e.write.Upd? && e.change.Some? && e.change.value.newRow.Some? && e.write.id.table in cat
    ensures var from, target, all := e.write.id, Target(cat, e.write), es + [e];
            && Concerned(cat, all, from) && Concerned(cat, all, target)
            && Checked(cat, all, target) == e.change.value.newRow.value.Keys * cat[from.table].base + Checked(cat, es, from)
            && (from != target ==> Checked(cat, all, from) == {})
            && (!Concerned(cat, es, from) ==> Checked(cat, es, from) == {})
            && Checked(cat, es, from) <= cat[from.table].base
  {
    var from, target, all := e.write.id, Target(cat, e.write), es + [e];
    ConcernedSnoc(cat, es, e, target);
    ConcernedSnoc(cat, es, e, from);
    CheckedIsStored(cat, es, from);
    assert Concerns(cat, e, from) && Concerns(cat, e, target) && all[|es|] == e;
    if !Concerned(cat, es, from) { UnconcernedUnchecked(cat, es, from); }
  }

  /** Where an update put its row, and where it took it from. */
  lemma LeftUpdated(cat: Catalog, before: Db, e: Entry, db: Db, es: seq<Entry>)
    requires e.write.Upd? && Legal(cat, before, e.write) && e.change.Some? && Faithful(cat, before, e.write, e.change.value)
    requires cat[e.write.id.table].Valid()
    requires Target(cat, e.write) in db ==> Keyed(cat[e.write.id.table], Target(cat, e.write), db[Target(cat, e.write)])
    ensures var w, c, from, target := e.write, e.change.value, e.write.id, Target(cat, e.write);
            var end, back := Written(cat, before, w), Restored(cat, db, before, w, c);
            AsLeft(cat, db, end, es + [e], target) && AsLeft(cat, db, end, es + [e], from) <==>
            StillThere(cat, db, w, c) && AsLeft(cat, back, before, es, target) && AsLeft(cat, back, before, es, from)
  {
    UpdateAsks(cat, e, es);
    if Target(cat, e.write) in db { LeftFound(cat, before, e, db, es); } else { LeftMissing(cat, before, e, db, es); }
  }

  lemma Elsewhere(cat: Catalog, before: Db, w: Write, db: Db, c: Change)
    requires w.Upd? && w.id.table in cat && c.oldRow.Some? && Target(cat, w) in db && Target(cat, w) != w.id
    ensures w.id !in Written(cat, before, w) && Target(cat, w) !in Restored(cat, db, before, w, c)
  {
    hide Assign;
  }

  lemma LeftMissing(cat: Catalog, before: Db, e: Entry, db: Db, es: seq<Entry>)
    requires e.write.Upd? && Legal(cat, before, e.write) && e.change.Some?
    requires Target(cat, e.write) !in db && Concerned(cat, es + [e], Target(cat, e.write))
    ensures !AsLeft(cat, db, Written(cat, before, e.write), es + [e], Target(cat, e.write))
    ensures !StillThere(cat, db, e.write, e.change.value)
  {
    hide Checked, Covers, Concerned, Schema.ValidRow, Schema.Valid;
  }

  lemma LeftFound(cat: Catalog, before: Db, e: Entry, db: Db, es: seq<Entry>)
    requires e.write.Upd? && Legal(cat, before, e.write) && e.change.Some? && Faithful(cat, before, e.write, e.change.value)
    requires cat[e.write.id.table].Valid() && Target(cat, e.write) in db
    requires Keyed(cat[e.write.id.table], Target(cat, e.write), db[Target(cat, e.write)])
    requires var from, target, all := e.write.id, Target(cat, e.write), es + [e];
      && Concerned(cat, all, from) && Concerned(cat, all, target)
      && Checked(cat, all, target) == e.change.value.newRow.value.Keys * cat[from.table].base + Checked(cat, es, from)
      && (from != target ==> Checked(cat, all, from) == {})
      && (!Concerned(cat, es, from) ==> Checked(cat, es, from) == {})
      && Checked(cat, es, from) <= cat[from.table].base
    ensures var w, c, from, target := e.write, e.change.value, e.write.id, Target(cat, e.write);
            var end, back := Written(cat, before, w), Restored(cat, db, before, w, c);
            AsLeft(cat, db, end, es + [e], target) && AsLeft(cat, db, end, es + [e], from) <==>
            StillThere(cat, db, w, c) && AsLeft(cat, back, before, es, target) && AsLeft(cat, back, before, es, from)
  {
    var w, c, from, target := e.write, e.change.value, e.write.id, Target(cat, e.write);
    var s, img, rest := cat[from.table], c.oldRow.value, Checked(cat, es, from);
    CoversAfterAssign(s, db[target], w.row, before[from], target, img, rest);
    assert from in before && (target == from || target !in before) && img.Keys == c.newRow.value.Keys;
    hide Assign, Checked, Covers, Faithful, Concerned, Keyed, Legal, Schema.ValidRow, Schema.Valid;
    assert StillThere(cat, db, w, c) <==> Covers(db[target], w.row, img.Keys * s.base) && (target == from || from !in db);
    if target != from { Elsewhere(cat, before, w, db, c); }
  }

  /** The two places an update is about, or the one an insert or delete is. */
  lemma LeftWhereWritten(cat: Catalog, before: Db, e: Entry, db: Db, es: seq<Entry>)
    requires ValidDb(cat, before) && ValidDb(cat, db)
    requires Legal(cat, before, e.write) && e.change.Some? && Faithful(cat, before, e.write, e.change.value)
    ensures var w, c, target := e.write, e.change.value, Target(cat, e.write);
            var end, back, from := Written(cat, before, w), Restored(cat, db, before, w, c), if w.Upd? then w.id else target;
            AsLeft(cat, db, end, es + [e], target) && AsLeft(cat, db, end, es + [e], from) <==>
            StillThere(cat, db, w, c) && AsLeft(cat, back, before, es, target) && AsLeft(cat, back, before, es, from)
  {
    hide AsLeft, StillThere, Restored, Faithful, Written;
    var w := e.write;
    match w
    case Ins(_, _) => LeftInserted(cat, before, e, db, es);
    case Del(_) => LeftDeleted(cat, before, e, db, es);
    case Upd(from, _) =>
      ValidRowIsKeyed(cat, before, from);
      if Target(cat, w) in db { ValidRowIsKeyed(cat, db, Target(cat, w)); }
      LeftUpdated(cat, before, e, db, es);
  }

  /** Everywhere, `db` still looks as the run left it in `end`. */
  ghost predicate AllAsLeft(cat: Catalog, db: Db, end: Db, es: seq<Entry>) {
    forall id :: AsLeft(cat, db, end, es, id)
  }

  lemma LeftStep(cat: Catalog, before: Db, e: Entry, db: Db, es: seq<Entry>)
    requires ValidDb(cat, before) && ValidDb(cat, db)
    requires Legal(cat, before, e.write) && e.change.Some? && Faithful(cat, before, e.write, e.change.value)
    ensures var w, c := e.write, e.change.value;
            AllAsLeft(cat, db, Written(cat, before, w), es + [e]) <==>
            StillThere(cat, db, w, c) && AllAsLeft(cat, Restored(cat, db, before, w, c), before, es)
  {
    hide AsLeft, StillThere, Restored, Faithful, Written;
    var w, c := e.write, e.change.value;
    forall id | !Concerns(cat, e, id)
      ensures AsLeft(cat, db, Written(cat, before, w), es + [e], id) <==>
              AsLeft(cat, Restored(cat, db, before, w, c), before, es, id)
    {
      LeftElsewhere(cat, before, e, db, es, id);
    }
    LeftWhereWritten(cat, before, e, db, es);
    hide ValidDb, Legal, Target;
  }

  /** One more change to undo: it decides, and then the older ones do. */
  lemma UndoGoesOn(cat: Catalog, mid: Db, w: Write, c: Change, older: seq<Change>, now: Db)
    requires ValidDb(cat, mid) && ValidDb(cat, now)
    requires Legal(cat, mid, w) && Faithful(cat, mid, w, c)
    requires PlanFor(cat, Reverse(older), false).Steps?
    ensures PlanFor(cat, Reverse(older + [c]), false).Steps?
    ensures Undo(cat, now, older + [c], false) ==
            if StillThere(cat, now, w, c)
            then Then([Applied], Undo(cat, Restored(cat, now, mid, w, c), older, false))
            else Refused(AtStep(0))
    ensures StillThere(cat, now, w, c) ==> ValidDb(cat, Restored(cat, now, mid, w, c))
  {
    hide PlanStep, PlanFor, Undo, Exec, Reverse, ValidDb, Faithful, StillThere, Restored;
    UndoHitsIff(cat, mid, w, c, now);
    UndoNewest(cat, now, older, c, false);
    if StillThere(cat, now, w, c) { RestoredIsValid(cat, mid, w, c, now); }
  }

  /**
   * Undoing a window goes through, without skips, exactly when every place its
   * writes took a row from or put one is occupied or free as the window left it,
   * and the rows there still show the values the window left in the columns it
   * recorded of them, under whatever keys it did so.
   */
  lemma {:induction false} UndoSucceedsIff(cat: Catalog, start: Db, es: seq<Entry>, now: Db)
    requires ValidDb(cat, start) && ValidDb(cat, now) && History(cat, start, es)
    ensures Undo(cat, now, Log(es), false).Done? <==>
            forall id :: AsLeft(cat, now, End(cat, start, es), es, id)
  {
    hide Undo, ValidDb, History, AsLeft;
    SucceedsIff(cat, start, es, now);
  }

  lemma {:induction false} SucceedsIff(cat: Catalog, start: Db, es: seq<Entry>, now: Db)
    requires ValidDb(cat, start) && ValidDb(cat, now) && History(cat, start, es)
    ensures Undo(cat, now, Log(es), false).Done? <==> AllAsLeft(cat, now, End(cat, start, es), es)
    decreases |es|
  {
    if es == [] {
      NothingToUndo(cat, now);
    } else {
      hide PlanFor, Undo, Reverse, ValidDb, Faithful, Legal, AllAsLeft, StillThere, Restored, Written;
      var mid := LastEntry(cat, start, es);
      var pre, e := es[..|es| - 1], es[|es| - 1];
      if e.change.Some? {
        UndoInvertsHistory(cat, start, pre, false);
        UndoGoesOn(cat, mid, e.write, e.change.value, Log(pre), now);
        if StillThere(cat, now, e.write, e.change.value) {
          SucceedsIff(cat, start, pre, Restored(cat, now, mid, e.write, e.change.value));
        }
        SucceedsOneMore(cat, mid, es, Log(pre), now);
      } else {
        SucceedsIff(cat, start, pre, now);
        UnrecordedLeaves(cat, now, mid, es);
      }
    }
  }

  lemma SucceedsOneMore(cat: Catalog, mid: Db, es: seq<Entry>, older: seq<Change>, now: Db)
    requires ValidDb(cat, mid) && ValidDb(cat, now) && es != [] && es[|es| - 1].change.Some?
    requires var e := es[|es| - 1]; Legal(cat, mid, e.write) && Faithful(cat, mid, e.write, e.change.value)
    requires PlanFor(cat, Reverse(older), false).Steps?
    requires var pre, e := es[..|es| - 1], es[|es| - 1];
             var back := Restored(cat, now, mid, e.write, e.change.value);
             StillThere(cat, now, e.write, e.change.value) ==>
               (Undo(cat, back, older, false).Done? <==> AllAsLeft(cat, back, mid, pre))
    ensures var e := es[|es| - 1];
            Undo(cat, now, older + [e.change.value], false).Done? <==> AllAsLeft(cat, now, Written(cat, mid, e.write), es)
  {
    hide PlanFor, Undo, Reverse, ValidDb, Faithful, Legal, AllAsLeft, StillThere, Restored, Written;
    var pre, e := es[..|es| - 1], es[|es| - 1];
    assert es == pre + [e];
    UndoGoesOn(cat, mid, e.write, e.change.value, older, now);
    LeftStep(cat, mid, e, now, pre);
  }

  lemma UnrecordedLeaves(cat: Catalog, now: Db, end: Db, es: seq<Entry>)
    requires es != [] && es[|es| - 1].change.None?
    ensures AllAsLeft(cat, now, end, es) <==> AllAsLeft(cat, now, end, es[..|es| - 1])
  {
    hide AsLeft;
    var pre := es[..|es| - 1];
    forall id: RowId
      ensures AsLeft(cat, now, end, es, id) <==> AsLeft(cat, now, end, pre, id)
    {
      UnrecordedThere(cat, now, end, es, id);
    }
    if AllAsLeft(cat, now, end, pre) {
      forall id: RowId ensures AsLeft(cat, now, end, es, id) { assert AsLeft(cat, now, end, pre, id); }
    }
  }

  lemma UnrecordedThere(cat: Catalog, now: Db, end: Db, es: seq<Entry>, id: RowId)
    requires es != [] && es[|es| - 1].change.None?
    ensures AsLeft(cat, now, end, es, id) <==> AsLeft(cat, now, end, es[..|es| - 1], id)
  {
    var pre, e := es[..|es| - 1], es[|es| - 1];
    assert !Concerns(cat, e, id) && Checked(cat, es, id) == Checked(cat, pre, id);
    ConcernedSnoc(cat, pre, e, id);
    assert es == pre + [e];
  }

  lemma NothingToUndo(cat: Catalog, now: Db)
    ensures Undo(cat, now, Log([]), false).Done? && AllAsLeft(cat, now, now, [])
  {
    assert Log([]) == [] && Reverse([]) == [];
  }
}
