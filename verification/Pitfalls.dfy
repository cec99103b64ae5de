/** Where the engine's hypotheses are needed: inputs on which the plain claim fails. */
module Pitfalls {
  import opened Options
  import opened Json
  import opened Tables
  import opened Statements
  import opened Capture
  import opened Plan
  import opened Inverse
  import opened Conflicts
  import opened AsOf
  import P = Preview

  /** Everything Legal asks for except that ALWAYS identity columns stay put. */
  ghost predicate Permitted(cat: Catalog, db: Db, w: Write) {
    w.Upd? && w.id in db && w.id.table in cat && cat[w.id.table].ValidRow(w.row) &&
    (Target(cat, w) == w.id || Target(cat, w) !in db)
  }

  ghost predicate KeepsAlways(cat: Catalog, db: Db, w: Write)
    requires w.Upd? && w.id in db && w.id.table in cat
  {
    forall c | c in cat[w.id.table].always :: Get(w.row, c) == Get(db[w.id], c)
  }

  /** Undoing this captured update, right after it, restores the tables. */
  ghost predicate UndoRestores(cat: Catalog, db: Db, w: Write, c: Change)
    requires w.Table() in cat
  {
    PlanStep(cat, c, false).Planned? && PlanStep(cat, c, false).stmt.Table() in cat &&
    Exec(cat, Written(cat, db, w), PlanStep(cat, c, false).stmt) == Hit(db)
  }

  /**
   * `UPDATE t SET id = DEFAULT` moves a GENERATED ALWAYS identity column, which
   * the plan takes to be impossible.  The undo of a captured update restores the
   * tables exactly when the update left those columns alone.
   */
  lemma UndoRestoresIffIdentityKept(cat: Catalog, db: Db, w: Write, full: bool, id: nat)
    requires ValidDb(cat, db) && Permitted(cat, db, w) && w.row != db[w.id]
    ensures var c := Captured(cat, db, w, full, false, id);
            c.Some? && (UndoRestores(cat, db, w, c.value) <==> KeepsAlways(cat, db, w))
  {
    CapturedShape(cat, db, w, full, id);
    var c := Captured(cat, db, w, full, false, id).value;
    hide Captured;
    ValidRowKeys(cat[w.id.table], db[w.id]);
    ValidRowKeys(cat[w.id.table], w.row);
    if KeepsAlways(cat, db, w) {
      hide Schema.ValidRow;
      TriggerIsFaithful(cat, db, w, full, false, id);
      UndoStepInverts(cat, db, w, c);
    } else {
      IdentityStays(cat, db, w, c);
    }
  }

  lemma CapturedShape(cat: Catalog, db: Db, w: Write, full: bool, id: nat)
    requires w.Upd? && w.id in db && w.id.table in cat && w.row != db[w.id]
    requires cat[w.id.table].ValidRow(db[w.id]) && cat[w.id.table].ValidRow(w.row)
    ensures var c := Captured(cat, db, w, full, false, id);
            c.Some? && c.value.op == U && c.value.table == w.id.table && c.value.pk == cat[w.id.table].Key(w.row)
  {
    var before := db[w.id];
    ValidRowKeys(cat[w.id.table], before);
    ValidRowKeys(cat[w.id.table], w.row);
    DifferentValues(before, w.row);
    var k :| k in before && before[k] != w.row[k];
    assert k in Changed(before, w.row);
  }

  lemma MovedBackDiffers(db: Db, id: RowId, target: RowId, row: Row, landed: RowId, back: Row)
    requires id in db && (target == id || target !in db) && back != db[id]
    ensures ((db - {id})[target := row] - {target})[landed := back] != db
  {
    var after := ((db - {id})[target := row] - {target})[landed := back];
    assert if landed == id then after[id] != db[id] else id !in after;
  }

  lemma NeverBack(cat: Catalog, db: Db, w: Write, st: Stmt, a: string)
    requires Permitted(cat, db, w) && cat[w.id.table].Valid() && w.row.Keys == cat[w.id.table].Columns()
    requires st.UpdateStmt? && st.id == Target(cat, w) && a !in st.cols
    requires a in cat[w.id.table].base && Get(w.row, a) != Get(db[w.id], a)
    ensures Exec(cat, Written(cat, db, w), st) != Hit(db)
  {
    var s := cat[w.id.table];
    var back := Assign(s, w.row, st.cols, st.img);
    FillKeepsStored(s, w.row + map k | k in st.cols :: Get(st.img, k));
    assert back[a] == w.row[a];
    hide Assign, Schema.Fill, Schema.ValidRow;
    MovedBackDiffers(db, w.id, st.id, w.row, RowId(st.id.table, s.Key(back)), back);
  }

  lemma IdentityStays(cat: Catalog, db: Db, w: Write, c: Change)
    requires Permitted(cat, db, w) && cat[w.id.table].Valid() && !KeepsAlways(cat, db, w)
    requires c.op == U && c.table == w.id.table && c.pk == cat[w.id.table].Key(w.row)
    requires db[w.id].Keys == w.row.Keys == cat[w.id.table].Columns()
    ensures !UndoRestores(cat, db, w, c)
  {
    hide Exec, Written, Schema.ValidRow, Schema.Fill;
    var s := cat[w.id.table];
    KeyOfKey(s, w.row);
    if PlanStep(cat, c, false).Planned? {
      var a :| a in s.always && Get(w.row, a) != Get(db[w.id], a);
      NeverBack(cat, db, w, PlanStep(cat, c, false).stmt, a);
    }
  }

  // ---- A small table on which the other hypotheses are shown to be needed. ----

  const NOTES := "notes"

  /** notes(id primary key, a, b): no identity, no generated columns. */
  function Notes(): Schema {
    Schema({"id"}, {"id", "a", "b"}, {}, {}, {}, (k, row) => Null)
  }

  function NotesCat(): Catalog { map[NOTES := Notes()] }

  function Note(id: string, a: string, b: string): Row {
    map["id" := Scalar(id), "a" := Scalar(a), "b" := Scalar(b)]
  }

  function KeyOf(id: string): Row { map["id" := Scalar(id)] }

  function At(id: string): RowId { RowId(NOTES, KeyOf(id)) }

  /**
   * Erasing history by redaction clears both images, and an undo of a redacted
   * insert is then built without a guard: it deletes whatever row now has the key.
   */
  lemma RedactedInsertUndoneUnguarded(cat: Catalog, db: Db, c: Change)
    requires ValidCatalog(cat) && c.table in cat && c.pk == cat[c.table].Key(c.pk) && c.pk.Keys == cat[c.table].pk
    requires c.op == I && c.oldRow == None && c.newRow == None && RowOf(c) in db
    ensures Undo(cat, db, [c], false) == Done(db - {RowOf(c)}, [Applied])
  {
    var st := DeleteStmt(RowOf(c), None);
    assert PlanStep(cat, c, false) == Planned(st);
    assert Step(cat, db, st, false, false) == Some((db - {RowOf(c)}, Applied));
    hide PlanStep, Step;
    assert [] + [c] == [c];
    NothingLeft(cat, db - {RowOf(c)}, false);
    UndoNewest(cat, db, [], c, false);
  }

  /** Every other use of a redacted change is refused: no update or delete of it is undone, nothing is replayed. */
  lemma RedactedOtherwiseRefused(cat: Catalog, db: Db, c: Change, replay: bool)
    requires ValidCatalog(cat) && c.table in cat && c.pk.Keys == cat[c.table].pk
    requires c.oldRow == None && c.newRow == None && c.op != T && (replay || c.op != I)
    ensures RunPlan(cat, db, [c], replay, false) ==
            Refused(if replay then NoPlan(NoImage) else if c.op == U then NoPlan(NothingAssignable) else AtStep(0))
  {
    hide PlanStep, Step, Apply, PlanFor;
    RedactedPlan(cat, c, replay);
    PlanOfOne(cat, c, replay);
    if !replay && c.op == D {
      RedactedInsertFails(cat, db, c);
      ApplyOne(cat, db, InsertStmt(c.table, map[]), false, false);
    }
  }

  lemma RedactedPlan(cat: Catalog, c: Change, replay: bool)
    requires ValidCatalog(cat) && c.table in cat && c.pk.Keys == cat[c.table].pk
    requires c.oldRow == None && c.newRow == None && c.op != T && (replay || c.op != I)
    ensures PlanStep(cat, c, replay) ==
            if replay then Cannot(NoImage) else if c.op == U then Cannot(NothingAssignable)
            else Planned(InsertStmt(c.table, map[]))
  {
  }

  /** A row with nothing but nulls is what undoing a redacted delete would insert. */
  lemma RedactedInsertFails(cat: Catalog, db: Db, c: Change)
    requires ValidCatalog(cat) && c.table in cat && c.pk.Keys == cat[c.table].pk
    ensures Step(cat, db, InsertStmt(c.table, map[]), false, false) == None
  {
    var s := cat[c.table];
    var k :| k in s.pk;
    assert s.Key(map[])[k] == Null;
  }

  lemma PlanOfOne(cat: Catalog, c: Change, replay: bool)
    ensures PlanFor(cat, [c], replay) ==
            match PlanStep(cat, c, replay) case Cannot(e) => Fails(e) case Planned(st) => Steps([st])
  {
    assert [c][..0] == [];
  }

  function Delta(n: nat, k: string, was: Json, became: Json): Change {
    Change(n, NOTES, U, KeyOf("1"), Some(map[k := was]), Some(map[k := became]))
  }

  function One(row: Row): Db { map[At("1") := row] }

  lemma PlanDelta(n: nat, k: string, was: Json, became: Json)
    requires k in {"a", "b"}
    ensures PlanStep(NotesCat(), Delta(n, k, was, became), false) ==
            Planned(UpdateStmt(At("1"), {k}, map[k := was], Some(map[k := became])))
  {
    var s, img := Notes(), map[k := was];
    assert img.Keys * s.Settable() == {k};
    assert map[k := became] - s.derived == map[k := became];
    assert s.Key(KeyOf("1")) == KeyOf("1");
  }

  lemma AssignOne(k: string, was: Json, row: Row)
    requires k in {"a", "b"} && row.Keys == {"id", "a", "b"} && row["id"] == Scalar("1")
    ensures Assign(Notes(), row, {k}, map[k := was]) == row[k := was] && Notes().Key(row[k := was]) == KeyOf("1")
  {
    var merged := row + map c | c in {k} :: Get(map[k := was], c);
    assert merged == row[k := was];
    assert Notes().Fill(merged) == merged;
  }

  /** Undoing one recorded column change on the only row. */
  lemma StepOnOne(n: nat, k: string, was: Json, became: Json, row: Row, skip: bool)
    requires k in {"a", "b"} && row.Keys == {"id", "a", "b"} && row["id"] == Scalar("1")
    ensures var st := PlanStep(NotesCat(), Delta(n, k, was, became), false);
            && st.Planned? && st.stmt.Table() in NotesCat()
            && Step(NotesCat(), One(row), st.stmt, skip, false) ==
                 if Contains(row[k], became) then Some((One(row[k := was]), Applied))
                 else if skip then Some((One(row), Skipped)) else None
  {
    PlanDelta(n, k, was, became);
    AssignOne(k, was, row);
    hide PlanStep, Assign, Contains;
    assert Holds(row, map[k := became]) <==> Contains(row[k], became);
    assert (One(row) - {At("1")})[At("1") := row[k := was]] == One(row[k := was]);
    assert NotesCat()[NOTES] == Notes() && !NullInKey(KeyOf("1"));
  }

  lemma UndoPair(cat: Catalog, db: Db, older: Change, newer: Change, skip: bool)
    requires forall c | c in {older, newer} :: PlanStep(cat, c, false).Planned? && PlanStep(cat, c, false).stmt.Table() in cat
    ensures var first := Step(cat, db, PlanStep(cat, newer, false).stmt, skip, false);
            Undo(cat, db, [older, newer], skip) ==
              if first.None? then Refused(AtStep(0))
              else
                var second := Step(cat, first.value.0, PlanStep(cat, older, false).stmt, skip, false);
                if second.None? then Refused(AtStep(1)) else Done(second.value.0, [first.value.1, second.value.1])
  {
    hide Step, PlanStep, Undo, Reverse;
    assert [] + [older] == [older] && [older] + [newer] == [older, newer];
    NothingLeft(cat, db, skip);
    UndoNewest(cat, db, [], older, skip);
    UndoNewest(cat, db, [older], newer, skip);
    var first := Step(cat, db, PlanStep(cat, newer, false).stmt, skip, false);
    if first.Some? {
      var mid := first.value.0;
      UndoNewest(cat, mid, [], older, skip);
      var second := Step(cat, mid, PlanStep(cat, older, false).stmt, skip, false);
      if second.Some? { NothingLeft(cat, second.value.0, skip); }
    }
  }

  lemma NothingLeft(cat: Catalog, db: Db, skip: bool)
    ensures Undo(cat, db, [], skip) == Done(db, [])
    ensures PlanFor(cat, Reverse([]), false).Steps?
  {
    assert Reverse([]) == [];
  }

  /**
   * skip_conflicts can still write to a row that has moved on: after 1 -> 2 -> 3
   * a later change put 2 back, so the newer step is skipped and the older one,
   * finding its own value again, sets 1.
   */
  lemma SkippingStillReachesTheRow()
    ensures var one, two, three := Scalar("1"), Scalar("2"), Scalar("3");
            Undo(NotesCat(), One(Note("1", "2", "x")), [Delta(1, "a", one, two), Delta(2, "a", two, three)], true)
              == Done(One(Note("1", "1", "x")), [Skipped, Applied])
  {
    hide PlanStep, Step;
    StepOnOne(2, "a", Scalar("2"), Scalar("3"), Note("1", "2", "x"), true);
    StepOnOne(1, "a", Scalar("1"), Scalar("2"), Note("1", "2", "x"), true);
    UndoPair(NotesCat(), One(Note("1", "2", "x")), Delta(1, "a", Scalar("1"), Scalar("2")), Delta(2, "a", Scalar("2"), Scalar("3")), true);
    assert Note("1", "2", "x")["a" := Scalar("1")] == Note("1", "1", "x");
  }

  /**
   * With changed-columns images a clear preview does not mean undo will run: only
   * the newest change of the row is probed, and the conflict is on an older one.
   */
  lemma ClearPreviewThenRefusal()
    ensures var log := [Delta(1, "b", Scalar("p"), Scalar("q")), Delta(2, "a", Scalar("x"), Scalar("y"))];
            var now := One(Note("1", "y", "r"));
            && (forall i | 0 <= i < 2 :: !P.Flagged(NotesCat(), now, Reverse(log), false, i))
            && Undo(NotesCat(), now, log, false) == Refused(AtStep(1))
  {
    var log := [Delta(1, "b", Scalar("p"), Scalar("q")), Delta(2, "a", Scalar("x"), Scalar("y"))];
    hide PlanStep, Step;
    StepOnOne(2, "a", Scalar("x"), Scalar("y"), Note("1", "y", "r"), false);
    StepOnOne(1, "b", Scalar("p"), Scalar("q"), Note("1", "y", "r")["a" := Scalar("x")], false);
    UndoPair(NotesCat(), One(Note("1", "y", "r")), log[0], log[1], false);
    hide Undo;
    NewestIsClear(log[0], log[1]);
  }

  lemma NewestIsClear(older: Change, newer: Change)
    requires newer == Delta(2, "a", Scalar("x"), Scalar("y")) && older == Delta(1, "b", Scalar("p"), Scalar("q"))
    ensures var cs := Reverse([older, newer]);
            forall i | 0 <= i < 2 :: !P.Flagged(NotesCat(), One(Note("1", "y", "r")), cs, false, i)
  {
    var cs := Reverse([older, newer]);
    assert cs[0] == newer && cs[1] == older && RowOf(cs[0]) == RowOf(cs[1]);
    assert !P.FirstSeen(cs, 1);
    assert Notes().Key(KeyOf("1")) == KeyOf("1");
    var img := newer.newRow.value;
    assert img - Notes().derived == img;
  }

  // ---- A row that was inserted and then moved ----

  const MADE := Change(1, NOTES, I, KeyOf("1"), None, Some(Note("1", "x", "b")))
  const MOVED := Change(2, NOTES, U, KeyOf("2"), Some(Note("1", "x", "b")), Some(Note("2", "x", "b")))

  /** The statement for an update of all three columns, in either direction. */
  lemma PlanWhole(c: Change, was: Row, became: Row, replay: bool)
    requires c.op == U && c.table == NOTES && c.pk.Keys == {"id"} && c.oldRow == Some(was) && c.newRow == Some(became)
    requires was.Keys == became.Keys == {"id", "a", "b"}
    ensures var img, guard := if replay then became else was, if replay then was else became;
            PlanStep(NotesCat(), c, replay) == Planned(UpdateStmt(RowOf(c), {"id", "a", "b"}, img, Some(guard)))
  {
    assert {"id", "a", "b"} * Notes().Settable() == {"id", "a", "b"};
    assert Notes().Key(c.pk) == c.pk;
    assert was - {} == was && became - {} == became;
  }

  lemma AssignWhole(live: Row, img: Row)
    requires live.Keys == img.Keys == {"id", "a", "b"}
    ensures Assign(Notes(), live, {"id", "a", "b"}, img) == img && Notes().Key(img) == map["id" := img["id"]]
  {
    assert live + (map c | c in {"id", "a", "b"} :: Get(img, c)) == img;
    assert Notes().Fill(img) == img;
  }

  /** It moves or overwrites a row that its guard accepts. */
  lemma WholeStep(c: Change, was: Row, became: Row, live: Row, replay: bool)
    requires c.op == U && c.table == NOTES && c.pk.Keys == {"id"} && c.oldRow == Some(was) && c.newRow == Some(became)
    requires was.Keys == became.Keys == live.Keys == {"id", "a", "b"}
    requires Holds(live, if replay then was else became) && (if replay then became else was)["id"] != Null
    ensures var st, img := PlanStep(NotesCat(), c, replay), if replay then became else was;
      && st.Planned? && st.stmt.Table() in NotesCat()
      && Step(NotesCat(), map[RowOf(c) := live], st.stmt, false, replay)
           == Some((map[RowId(NOTES, map["id" := img["id"]]) := img], Applied))
  {
    var img := if replay then became else was;
    PlanWhole(c, was, became, replay);
    AssignWhole(live, img);
    hide PlanStep, Assign, Holds, Schema.Fill;
    var target := RowId(NOTES, map["id" := img["id"]]);
    assert (map[RowOf(c) := live] - {RowOf(c)})[target := img] == map[target := img];
  }

  lemma UndoMove()
    ensures PlanStep(NotesCat(), MOVED, false).Planned? && PlanStep(NotesCat(), MOVED, false).stmt.Table() in NotesCat()
    ensures Step(NotesCat(), map[At("2") := Note("2", "x", "b")], PlanStep(NotesCat(), MOVED, false).stmt, false, false)
         == Some((One(Note("1", "x", "b")), Applied))
  {
    var was, now := Note("1", "x", "b"), Note("2", "x", "b");
    HoldsAgreeing(now, now);
    hide PlanStep, Step, Holds;
    WholeStep(MOVED, was, now, now, false);
    assert map["id" := was["id"]] == KeyOf("1");
  }

  lemma UndoInsert()
    ensures PlanStep(NotesCat(), MADE, false).Planned? && PlanStep(NotesCat(), MADE, false).stmt.Table() in NotesCat()
    ensures Step(NotesCat(), One(Note("1", "x", "b")), PlanStep(NotesCat(), MADE, false).stmt, false, false) == Some((map[], Applied))
  {
    var s, row := Notes(), Note("1", "x", "b");
    assert s.Key(KeyOf("1")) == KeyOf("1") && row - s.derived == row;
    assert PlanStep(NotesCat(), MADE, false) == Planned(DeleteStmt(At("1"), Some(row)));
    hide PlanStep;
    HoldsAgreeing(row, row);
    assert One(row) - {At("1")} == map[];
  }

  /**
   * A flag on a row that has moved since says nothing: the preview looks for the
   * inserted row under the key it no longer has, while the undo first moves it back.
   */
  lemma FlaggedAndUndone()
    ensures var now := map[At("2") := Note("2", "x", "b")];
            P.Flagged(NotesCat(), now, Reverse([MADE, MOVED]), false, 1)
            && Undo(NotesCat(), now, [MADE, MOVED], false) == Done(map[], [Applied, Applied])
  {
    var now := map[At("2") := Note("2", "x", "b")];
    hide PlanStep, Step;
    UndoMove();
    UndoInsert();
    UndoPair(NotesCat(), now, MADE, MOVED, false);
    hide Undo;
    var cs := Reverse([MADE, MOVED]);
    assert cs[0] == MOVED && cs[1] == MADE && KeyOf("1")["id"] != KeyOf("2")["id"];
    assert Notes().Key(KeyOf("1")) == KeyOf("1");
  }

  // ---- A key that only grew ----

  function Listed(key: Json, a: string): Row {
    map["id" := key, "a" := Scalar(a), "b" := Null]
  }

  /**
   * The replay of a key change can take effect where a container key only grew: the
   * guard then takes a row that had the new key all along for the one that was moved.
   */
  lemma GrownKeyReplays()
    ensures var short, long := Arr([Scalar("1")]), Arr([Scalar("1"), Scalar("2")]);
            var id := RowId(NOTES, map["id" := long]);
            var moved := Change(1, NOTES, U, id.key, Some(Listed(short, "x")), Some(Listed(long, "y")));
            Replayed(NotesCat(), map[id := Listed(long, "x")], [moved], false)
              == Done(map[id := Listed(long, "y")], [Applied])
  {
    var short, long := Arr([Scalar("1")]), Arr([Scalar("1"), Scalar("2")]);
    var id := RowId(NOTES, map["id" := long]);
    var was, live, now := Listed(short, "x"), Listed(long, "x"), Listed(long, "y");
    var c := Change(1, NOTES, U, id.key, Some(was), Some(now));
    GrownAccepted(was, live);
    hide PlanStep, Step, Holds;
    WholeStep(c, was, now, live, true);
    PlanOfOne(NotesCat(), c, true);
    hide Apply;
    ApplyOne(NotesCat(), map[id := live], PlanStep(NotesCat(), c, true).stmt, false, true);
  }

  lemma GrownAccepted(was: Row, live: Row)
    requires was == Listed(Arr([Scalar("1")]), "x") && live == Listed(Arr([Scalar("1"), Scalar("2")]), "x")
    ensures Holds(live, was)
  {
    var long := live["id"];
    assert long.items[0] == Scalar("1");
    assert Contains(long, was["id"]);
  }

  /**
   * Containment is not equality on a nested value: a later change that only adds
   * to the captured object passes the guard, and the undo discards it.
   */
  lemma NestedChangeLost(was: Json)
    ensures var became := Obj(map["n" := Scalar("2")]);
            var later := Obj(map["n" := Scalar("2"), "m" := Scalar("9")]);
            var now := Note("1", "", "x")["a" := later];
            && later != became
            && Undo(NotesCat(), One(now), [Delta(1, "a", was, became)], false) == Done(One(now["a" := was]), [Applied])
  {
    var became := Obj(map["n" := Scalar("2")]);
    var later := Obj(map["n" := Scalar("2"), "m" := Scalar("9")]);
    var c, now := Delta(1, "a", was, became), Note("1", "", "x")["a" := later];
    assert "m" in later.fields && "m" !in became.fields;
    assert Contains(later.fields["n"], became.fields["n"]);
    assert Contains(later, became);
    StepOnOne(1, "a", was, became, now, false);
    assert [] + [c] == [c];
    NothingLeft(NotesCat(), One(now["a" := was]), false);
    UndoNewest(NotesCat(), One(now), [], c, false);
  }

  /**
   * as_of groups by the key a change was logged under, so a row that was changed
   * and then moved to another key comes back wrong: the row below held "x".
   */
  lemma AsOfLosesMovedRow()
    ensures var first := Delta(1, "a", Scalar("x"), Scalar("y"));
            var moved := Change(2, NOTES, U, KeyOf("2"), Some(KeyOf("1")), Some(KeyOf("2")));
            var now := map[At("2") := Note("2", "y", "b")];
            AsOfRow(now, [first, moved], At("2")) == Some(Note("1", "y", "b"))
            && AsOfTable(now, [first, moved], NOTES) != TableAt(One(Note("1", "x", "b")), NOTES)
  {
    var first := Delta(1, "a", Scalar("x"), Scalar("y"));
    var moved := Change(2, NOTES, U, KeyOf("2"), Some(KeyOf("1")), Some(KeyOf("2")));
    var now, win := map[At("2") := Note("2", "y", "b")], [first, moved];
    assert KeyOf("1")["id"] != KeyOf("2")["id"];
    assert win[1..] == [moved] && [moved][1..] == [];
    assert OverlaidCols([], At("2")) == {} && OverlaidCols([moved], At("2")) == {"id"};
    assert OverlaidCols(win, At("2")) == {"id"};
    assert OldValue(win, At("2"), "id") == OldValue([moved], At("2"), "id") == Some(Scalar("1"));
    assert Overlay(win, At("2")) == map["id" := Scalar("1")];
    assert OldestOp(win, At("2")) == OldestOp([moved], At("2")) == Some(U);
    assert Note("2", "y", "b") + Overlay(win, At("2")) == Note("1", "y", "b");
    assert At("2") in AsOfTable(now, win, NOTES) && At("2") !in TableAt(One(Note("1", "x", "b")), NOTES);
  }
}
