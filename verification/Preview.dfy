/** The conflict probe of preview, against what undo then does. */
module Preview {
  import opened Options
  import opened Tables
  import opened Statements
  import opened Capture
  import opened Plan
  import opened Inverse
  import opened Window
  import opened Conflicts

  /** The first change to its row in application order: the only one probed. */
  predicate FirstSeen(cs: seq<Change>, i: nat)
    requires i < |cs|
  {
    forall j | 0 <= j < i :: RowOf(cs[j]) != RowOf(cs[i])
  }

  /** `_plan`'s conflict flag for a probed change; comparing with no image is never true. */
  predicate Probe(cat: Catalog, db: Db, c: Change, replay: bool) {
    c.table in cat &&
    var s := cat[c.table];
    var id := RowId(c.table, s.Key(c.pk));
    if c.op == (if replay then I else D) then id in db
    else if id !in db then true
    else
      var expected := Guard(s, if replay then c.oldRow else c.newRow);
      expected.Some? && !Holds(db[id], expected.value)
  }

  predicate Flagged(cat: Catalog, db: Db, cs: seq<Change>, replay: bool, i: nat)
    requires i < |cs|
  {
    FirstSeen(cs, i) && Probe(cat, db, cs[i], replay)
  }

  /** A change whose planned statement works on the row its key names, wherever that leaves it. */
  ghost predicate Aimed(cat: Catalog, c: Change, replay: bool) {
    && c.table in cat && c.pk == cat[c.table].Key(c.pk)
    && PlanStep(cat, c, replay).Planned? && PlanStep(cat, c, replay).stmt.Table() in cat
    && var st := PlanStep(cat, c, replay).stmt;
       if st.InsertStmt? then Lands(cat, st) == RowOf(c) else st.id == RowOf(c)
  }

  /** A change whose planned statement, if it has one, neither takes a row from this place nor leaves one there. */
  ghost predicate StaysOff(cat: Catalog, c: Change, replay: bool, id: RowId) {
    var p := PlanStep(cat, c, replay);
    p.Planned? && p.stmt.Table() in cat ==> Lands(cat, p.stmt) != id && (p.stmt.UpdateStmt? ==> p.stmt.id != id)
  }

  /** A row no statement is about stays exactly as it was. */
  lemma {:induction false} UntouchedRow(cat: Catalog, db: Db, stmts: seq<Stmt>, skip: bool, replay: bool, id: RowId)
    requires Known(cat, stmts) && ValidDb(cat, db)
    requires Apply(cat, db, stmts, skip, replay).Done?
    requires forall i | 0 <= i < |stmts| :: Lands(cat, stmts[i]) != id && (stmts[i].UpdateStmt? ==> stmts[i].id != id)
    ensures var after := Apply(cat, db, stmts, skip, replay).db;
            (id in after <==> id in db) && (id in db ==> after[id] == db[id])
    decreases |stmts|
  {
    hide Exec, ValidDb, Lands;
    if stmts != [] {
      var n := |stmts| - 1;
      UntouchedRow(cat, db, stmts[..n], skip, replay, id);
      ApplyKeepsValid(cat, db, stmts[..n], skip, replay);
      UntouchedByOne(cat, Apply(cat, db, stmts[..n], skip, replay).db, stmts[n], id);
    }
  }

  lemma UntouchedByOne(cat: Catalog, db: Db, st: Stmt, id: RowId)
    requires st.Table() in cat && ValidDb(cat, db)
    requires Lands(cat, st) != id && (st.UpdateStmt? ==> st.id != id)
    ensures Exec(cat, db, st).Hit? ==>
              var after := Exec(cat, db, st).db;
              (id in after <==> id in db) && (id in db ==> after[id] == db[id])
  {
    hide ValidDb, Assign, GuardHolds;
    if st.UpdateStmt? && st.id in db {
      UpdatedRow(cat, db, st);
      hide Lands, NullInKey, Schema.Key;
    }
  }

  /** The place an update leaves its row at. */
  lemma UpdatedRow(cat: Catalog, db: Db, st: Stmt)
    requires st.UpdateStmt? && st.Table() in cat && ValidDb(cat, db) && st.id in db
    ensures Lands(cat, st) == RowId(st.id.table, cat[st.id.table].Key(Assign(cat[st.id.table], db[st.id], st.cols, st.img)))
  {
    hide Assign, ValidDb;
    ValidRowIsKeyed(cat, db, st.id);
    UpdateLands(cat[st.id.table], st.id.table, st.id, db[st.id], st.cols, st.img);
  }

  lemma {:induction false} ApplyPrefix(cat: Catalog, db: Db, stmts: seq<Stmt>, skip: bool, replay: bool, i: nat)
    requires Known(cat, stmts) && i < |stmts| && Apply(cat, db, stmts, skip, replay).Done?
    ensures var before, all := Apply(cat, db, stmts[..i], skip, replay), Apply(cat, db, stmts, skip, replay);
            before.Done? && before.statuses == all.statuses[..i] &&
            var step := Step(cat, before.db, stmts[i], skip, replay);
            step.Some? && step.value.1 == all.statuses[i]
    decreases |stmts|
  {
    hide Step;
    if i < |stmts| - 1 {
      assert stmts[..|stmts| - 1][..i] == stmts[..i];
      ApplyPrefix(cat, db, stmts[..|stmts| - 1], skip, replay, i);
    }
  }

  /** Whether the step for a change has gone wrong by the time its turn comes, from the row it is about. */
  lemma ProbeMisses(cat: Catalog, db: Db, c: Change, replay: bool)
    requires Aimed(cat, c, replay) && Probe(cat, db, c, replay)
    ensures !Exec(cat, db, PlanStep(cat, c, replay).stmt).Hit?
    ensures PlanStep(cat, c, replay).stmt.DeleteStmt? <==> c.op == (if replay then D else I)
    ensures PlanStep(cat, c, replay).stmt.DeleteStmt? ==> PlanStep(cat, c, replay).stmt.id == RowOf(c)
  {
  }

  /** `db` and `later` have the same row, or none, at this place. */
  predicate SameRow(db: Db, later: Db, id: RowId) {
    (id in later <==> id in db) && (id in db ==> later[id] == db[id])
  }

  /** The first change of a row finds it as it was before the plan. */
  lemma FirstFindsRow(cat: Catalog, db: Db, cs: seq<Change>, skip: bool, replay: bool, i: nat)
    requires ValidDb(cat, db) && i < |cs| && forall j | 0 <= j < i :: StaysOff(cat, cs[j], replay, RowOf(cs[i]))
    requires RunPlan(cat, db, cs, replay, skip).Done?
    ensures PlanFor(cat, cs, replay).Steps? && Known(cat, PlanFor(cat, cs, replay).stmts[..i])
    ensures var before := Apply(cat, db, PlanFor(cat, cs, replay).stmts[..i], skip, replay);
            before.Done? && SameRow(db, before.db, RowOf(cs[i]))
  {
    hide Exec, PlanStep, Apply, PlanFor, ValidDb, Lands;
    var stmts, id := PlanFor(cat, cs, replay).stmts, RowOf(cs[i]);
    ApplyPrefix(cat, db, stmts, skip, replay, i);
    PlanIsEachStep(cat, cs, replay);
    forall j | 0 <= j < i
      ensures Lands(cat, stmts[..i][j]) != id && (stmts[..i][j].UpdateStmt? ==> stmts[..i][j].id != id)
    {
      assert StaysOff(cat, cs[j], replay, id) && PlanStep(cat, cs[j], replay) == Planned(stmts[j]);
    }
    UntouchedRow(cat, db, stmts[..i], skip, replay, id);
  }

  lemma ProbeFrame(cat: Catalog, db: Db, later: Db, c: Change, replay: bool)
    requires Aimed(cat, c, replay) && SameRow(db, later, RowOf(c))
    ensures Probe(cat, later, c, replay) == Probe(cat, db, c, replay)
  {
  }

  /**
   * Every conflict a preview flags is one the run refuses on, for any selection in
   * which no earlier step moves a row to or from the place probed -- but for the
   * delete of a row already absent, which a replay counts as satisfied.
   */
  lemma FlaggedMeansRefused(cat: Catalog, db: Db, cs: seq<Change>, replay: bool, i: nat)
    requires ValidDb(cat, db) && i < |cs| && Aimed(cat, cs[i], replay)
    requires forall j | 0 <= j < i :: StaysOff(cat, cs[j], replay, RowOf(cs[i]))
    requires Flagged(cat, db, cs, replay, i)
    ensures var o := RunPlan(cat, db, cs, replay, false);
            o.Done? ==> i < |o.statuses| && replay && cs[i].op == D && RowOf(cs[i]) !in db && o.statuses[i] == Satisfied
  {
    hide Aimed, StaysOff, Probe, Exec, PlanStep, Apply, PlanFor, ValidDb;
    if RunPlan(cat, db, cs, replay, false).Done? {
      var stmts := PlanFor(cat, cs, replay).stmts;
      FirstFindsRow(cat, db, cs, false, replay, i);
      ApplyPrefix(cat, db, stmts, false, replay, i);
      PlanIsEachStep(cat, cs, replay);
      var before := Apply(cat, db, stmts[..i], false, replay).db;
      ProbeFrame(cat, db, before, cs[i], replay);
      ProbeMisses(cat, before, cs[i], replay);
    }
  }

  lemma CleanIsDone(o: Outcome)
    requires Clean(o)
    ensures o.Done?
  {
  }

  /** The replay preview is stricter than replay: it flags an absent-row delete that replay accepts. */
  lemma ReplayPreviewFlagsSatisfiedDelete(cat: Catalog, db: Db, c: Change)
    requires ValidCatalog(cat) && c.table in cat && c.op == D && c.oldRow.Some?
    requires PlanStep(cat, c, true).Planned? && RowId(c.table, cat[c.table].Key(c.pk)) !in db
    ensures Flagged(cat, db, [c], true, 0)
    ensures Replayed(cat, db, [c], false) == Done(db, [Satisfied])
  {
    var st := PlanStep(cat, c, true).stmt;
    assert Step(cat, db, st, false, true) == Some((db, Satisfied));
    hide Step, PlanStep;
    PlanFirst(cat, c, [], true);
    assert [c] + [] == [c] && [st] + [] == [st];
    ApplyOne(cat, db, st, false, true);
  }
}
