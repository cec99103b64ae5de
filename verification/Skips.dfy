/** What skip_conflicts promises about rows that have moved on. */
module Skips {
  import opened Json
  import opened Tables
  import opened Statements
  import opened Capture
  import opened Plan
  import opened Window
  import opened Conflicts
  import opened Preview
  import opened Reliable
  import opened Replay

  /** What a step's probe says about its statement: a conflict never takes effect, and nothing else misses. */
  lemma ProbeDecides(cat: Catalog, db: Db, c: Change, replay: bool)
    requires Aimed(cat, c, replay)
    ensures var e := Exec(cat, db, PlanStep(cat, c, replay).stmt);
            if Probe(cat, db, c, replay) then !e.Hit? else !e.Miss?
  {
    if Probe(cat, db, c, replay) { ProbeMisses(cat, db, c, replay); }
  }

  /** None of these steps took effect on this row. */
  predicate LeftAlone(cs: seq<Change>, statuses: seq<Status>, id: RowId)
    requires |cs| <= |statuses|
  {
    forall i | 0 <= i < |cs| && RowOf(cs[i]) == id :: statuses[i] != Applied
  }

  /** Each step about the row did nothing, or was a conflict on the row as found. */
  predicate Excused(cat: Catalog, db: Db, cs: seq<Change>, replay: bool, statuses: seq<Status>, id: RowId)
    requires |cs| <= |statuses|
  {
    forall i | 0 <= i < |cs| && RowOf(cs[i]) == id :: statuses[i] != Applied || Probe(cat, db, cs[i], replay)
  }

  /** What a step does depends on its probe when its turn comes. */
  lemma StepFollowsProbe(cat: Catalog, before: Db, c: Change, replay: bool)
    requires Aimed(cat, c, replay) && Step(cat, before, PlanStep(cat, c, replay).stmt, true, replay).Some?
    ensures var status := Step(cat, before, PlanStep(cat, c, replay).stmt, true, replay).value.1;
            status == Applied <==> !Probe(cat, before, c, replay)
    ensures Probe(cat, before, c, replay) ==>
            Step(cat, before, PlanStep(cat, c, replay).stmt, true, replay).value.0 == before
  {
    hide Aimed, Probe, Exec, PlanStep;
    AimedHasStatement(cat, c, replay);
    ProbeDecides(cat, before, c, replay);
  }

  /**
   * How each step of a run that went through ended.  A replayed delete of an absent row
   * is satisfied, never a conflict, whether or not conflicts are skipped; a row that is
   * there but different is one.
   */
  lemma StatusIff(cat: Catalog, db: Db, stmts: seq<Stmt>, skip: bool, replay: bool, i: nat)
    requires Known(cat, stmts) && i < |stmts| && Apply(cat, db, stmts, skip, replay).Done?
    ensures Apply(cat, db, stmts[..i], skip, replay).Done?
    ensures var before, st := Apply(cat, db, stmts[..i], skip, replay).db, stmts[i];
            var status := Apply(cat, db, stmts, skip, replay).statuses[i];
            var met := replay && st.DeleteStmt? && st.id !in before;
            && (status == Applied <==> Exec(cat, before, st).Hit?)
            && (status == Satisfied <==> met)
            && (status == Skipped <==> skip && Exec(cat, before, st).Miss? && !met)
            && (st.DeleteStmt? ==> (status == Applied <==> st.id in before && GuardHolds(before[st.id], st.expected)))
  {
    ApplyPrefix(cat, db, stmts, skip, replay, i);
    hide Apply, GuardHolds;
  }

  /**
   * With conflicts skipped, only an error still refuses a step: a key that would be null,
   * or an update that would move its row onto another.  An occupied place or a row that
   * moved on never does.
   */
  lemma SkippingRefusesIff(cat: Catalog, before: Db, st: Stmt, replay: bool)
    requires st.Table() in cat
    ensures var s := cat[st.Table()];
            Step(cat, before, st, true, replay).None? <==>
              match st
              case InsertStmt(_, img) => exists k :: k in s.pk && Get(img, k) == Null
              case DeleteStmt(_, _) => false
              case UpdateStmt(id, cols, img, expected) =>
                id in before && GuardHolds(before[id], expected) &&
                var row := Assign(s, before[id], cols, img);
                (exists k :: k in s.pk && Get(row, k) == Null) ||
                (s.Key(row) != id.key && RowId(id.table, s.Key(row)) in before)
  {
    hide Assign, GuardHolds;
    var s := cat[st.Table()];
    assert forall row: Row :: NullInKey(s.Key(row)) <==> exists k :: k in s.pk && Get(row, k) == Null by {
      forall row: Row ensures NullInKey(s.Key(row)) <==> exists k :: k in s.pk && Get(row, k) == Null {
        KeyHasNull(s, row);
      }
    }
  }

  lemma KeyHasNull(s: Schema, row: Row)
    ensures NullInKey(s.Key(row)) <==> exists k :: k in s.pk && Get(row, k) == Null
  {
    if k :| k in s.pk && Get(row, k) == Null { assert k in s.Key(row); }
  }

  lemma AimedHasStatement(cat: Catalog, c: Change, replay: bool)
    requires Aimed(cat, c, replay)
    ensures PlanStep(cat, c, replay).Planned? && PlanStep(cat, c, replay).stmt.Table() in cat
  {
  }

  /** The changes of a row work on it, and the others' statements keep off it. */
  ghost predicate Parted(cat: Catalog, cs: seq<Change>, replay: bool, id: RowId) {
    forall j | 0 <= j < |cs| :: if RowOf(cs[j]) == id then Aimed(cat, cs[j], replay) else StaysOff(cat, cs[j], replay, id)
  }

  ghost predicate PlansTo(cat: Catalog, cs: seq<Change>, replay: bool, stmts: seq<Stmt>) {
    |stmts| == |cs| && Known(cat, stmts) &&
    forall j | 0 <= j < |cs| :: PlanStep(cat, cs[j], replay) == Planned(stmts[j])
  }

  lemma PlannedStatements(cat: Catalog, cs: seq<Change>, replay: bool)
    requires PlanFor(cat, cs, replay).Steps?
    ensures PlansTo(cat, cs, replay, PlanFor(cat, cs, replay).stmts)
  {
    hide PlanFor, PlanStep;
    PlanIsEachStep(cat, cs, replay);
  }

  /** A row is as it was found for as long as the steps about it are excused. */
  lemma {:induction false} RowHeld(cat: Catalog, db: Db, cs: seq<Change>, replay: bool, stmts: seq<Stmt>,
                                   statuses: seq<Status>, n: nat, id: RowId)
    requires ValidDb(cat, db) && PlansTo(cat, cs, replay, stmts) && Parted(cat, cs, replay, id) && n <= |cs| == |statuses| && Known(cat, stmts[..n])
    requires Apply(cat, db, stmts, true, replay).Done? && Apply(cat, db, stmts, true, replay).statuses == statuses
    requires Excused(cat, db, cs[..n], replay, statuses, id)
    ensures var o := Apply(cat, db, stmts[..n], true, replay); o.Done? && SameRow(db, o.db, id)
    ensures LeftAlone(cs[..n], statuses, id)
  {
    if n == 0 {
      assert Apply(cat, db, stmts[..0], true, replay) == Done(db, []);
    } else {
      hide Aimed, Probe, PlanStep, ValidDb, Step, SameRow, Apply, PlansTo, Excused, LeftAlone, Known;
      PlannedAt(cat, cs, replay, stmts, n - 1, id);
      ExcusedLast(cat, db, cs, replay, statuses, id, n);
      RowHeld(cat, db, cs, replay, stmts, statuses, n - 1, id);
      ApplyPrefix(cat, db, stmts, true, replay, n - 1);
      ApplyNext(cat, db, stmts, true, replay, n - 1);
      ApplyKeepsValid(cat, db, stmts[..n - 1], true, replay);
      HeldStep(cat, db, Apply(cat, db, stmts[..n - 1], true, replay).db, cs[n - 1], replay, id);
      LeftAloneLast(cs, statuses, id, n);
    }
  }

  lemma ExcusedLast(cat: Catalog, db: Db, cs: seq<Change>, replay: bool, statuses: seq<Status>, id: RowId, n: nat)
    requires 0 < n <= |cs| == |statuses| && Excused(cat, db, cs[..n], replay, statuses, id)
    ensures Excused(cat, db, cs[..n - 1], replay, statuses, id)
    ensures RowOf(cs[n - 1]) == id ==> statuses[n - 1] != Applied || Probe(cat, db, cs[n - 1], replay)
  {
    hide Probe;
    assert forall j | 0 <= j < n :: cs[..n][j] == cs[j];
  }

  lemma LeftAloneLast(cs: seq<Change>, statuses: seq<Status>, id: RowId, n: nat)
    requires 0 < n <= |cs| == |statuses| && LeftAlone(cs[..n - 1], statuses, id)
    requires RowOf(cs[n - 1]) == id ==> statuses[n - 1] != Applied
    ensures LeftAlone(cs[..n], statuses, id)
  {
    forall j | 0 <= j < n && RowOf(cs[..n][j]) == id
      ensures statuses[j] != Applied
    {
      if j < n - 1 { assert cs[..n - 1][j] == cs[..n][j]; }
    }
  }

  lemma PlannedAt(cat: Catalog, cs: seq<Change>, replay: bool, stmts: seq<Stmt>, j: nat, id: RowId)
    requires PlansTo(cat, cs, replay, stmts) && Parted(cat, cs, replay, id) && j < |cs|
    ensures |stmts| == |cs| && Known(cat, stmts) && Known(cat, stmts[..j])
    ensures PlanStep(cat, cs[j], replay) == Planned(stmts[j]) && stmts[j].Table() in cat
    ensures if RowOf(cs[j]) == id then Aimed(cat, cs[j], replay) else StaysOff(cat, cs[j], replay, id)
  {
  }

  lemma ApplyNext(cat: Catalog, db: Db, stmts: seq<Stmt>, skip: bool, replay: bool, i: nat)
    requires Known(cat, stmts) && i < |stmts| && Apply(cat, db, stmts[..i], skip, replay).Done?
    ensures var before := Apply(cat, db, stmts[..i], skip, replay);
            var step := Step(cat, before.db, stmts[i], skip, replay);
            Known(cat, stmts[..i + 1]) && Apply(cat, db, stmts[..i + 1], skip, replay) ==
              if step.None? then Refused(AtStep(i)) else Done(step.value.0, before.statuses + [step.value.1])
  {
    hide Step;
    assert stmts[..i + 1][..i] == stmts[..i] && stmts[..i + 1][i] == stmts[i];
  }

  lemma HeldStep(cat: Catalog, db: Db, before: Db, c: Change, replay: bool, id: RowId)
    requires ValidDb(cat, before) && SameRow(db, before, id)
    requires PlanStep(cat, c, replay).Planned? && PlanStep(cat, c, replay).stmt.Table() in cat
    requires if RowOf(c) == id then Aimed(cat, c, replay) else StaysOff(cat, c, replay, id)
    requires Step(cat, before, PlanStep(cat, c, replay).stmt, true, replay).Some?
    requires var status := Step(cat, before, PlanStep(cat, c, replay).stmt, true, replay).value.1;
             RowOf(c) == id ==> status != Applied || Probe(cat, db, c, replay)
    ensures var step := Step(cat, before, PlanStep(cat, c, replay).stmt, true, replay).value;
            SameRow(db, step.0, id) && (RowOf(c) == id ==> step.1 != Applied)
  {
    hide Aimed, Probe, Step, PlanStep, ValidDb, Lands;
    if RowOf(c) != id {
      OthersStep(cat, db, before, PlanStep(cat, c, replay).stmt, replay, id);
    } else {
      StepFollowsProbe(cat, before, c, replay);
      ProbeFrame(cat, db, before, c, replay);
    }
  }

  lemma OthersStep(cat: Catalog, db: Db, before: Db, st: Stmt, replay: bool, id: RowId)
    requires st.Table() in cat && ValidDb(cat, before) && SameRow(db, before, id)
    requires Lands(cat, st) != id && (st.UpdateStmt? ==> st.id != id)
    requires Step(cat, before, st, true, replay).Some?
    ensures SameRow(db, Step(cat, before, st, true, replay).value.0, id)
  {
    hide Exec, Lands, ValidDb;
    UntouchedByOne(cat, before, st, id);
  }

  /**
   * Run with skips, an undo or replay, of any selection in which no other row's
   * statement touches this one, leaves it alone exactly when every selected
   * change of that row is a conflict on the row as it stands before the call: one
   * older change that finds its own values again is enough to write to it.
   */
  lemma SkipsLeaveRowAloneIff(cat: Catalog, db: Db, cs: seq<Change>, replay: bool, id: RowId)
    requires ValidDb(cat, db) && RunPlan(cat, db, cs, replay, true).Done?
    requires Parted(cat, cs, replay, id)
    ensures var o := RunPlan(cat, db, cs, replay, true);
            |o.statuses| == |cs| &&
            (LeftAlone(cs, o.statuses, id) <==>
             forall i | 0 <= i < |cs| && RowOf(cs[i]) == id :: Probe(cat, db, cs[i], replay)) &&
            (LeftAlone(cs, o.statuses, id) ==> SameRow(db, o.db, id))
  {
    var stmts, o := PlanFor(cat, cs, replay).stmts, RunPlan(cat, db, cs, replay, true);
    hide Aimed, Probe, Exec, PlanStep, PlanFor, Apply, ValidDb, SameRow, Step;
    PlannedStatements(cat, cs, replay);
    assert stmts[..|cs|] == stmts && cs[..|cs|] == cs;
    if LeftAlone(cs, o.statuses, id) {
      RowHeld(cat, db, cs, replay, stmts, o.statuses, |cs|, id);
      forall i | 0 <= i < |cs| && RowOf(cs[i]) == id
        ensures Probe(cat, db, cs[i], replay)
      {
        AloneIsConflict(cat, db, cs, replay, stmts, o.statuses, i);
      }
    } else if forall i | 0 <= i < |cs| && RowOf(cs[i]) == id :: Probe(cat, db, cs[i], replay) {
      RowHeld(cat, db, cs, replay, stmts, o.statuses, |cs|, id);
    }
  }

  lemma AloneIsConflict(cat: Catalog, db: Db, cs: seq<Change>, replay: bool, stmts: seq<Stmt>, statuses: seq<Status>, i: nat)
    requires ValidDb(cat, db) && PlansTo(cat, cs, replay, stmts) && i < |cs| == |statuses| && Parted(cat, cs, replay, RowOf(cs[i]))
    requires Apply(cat, db, stmts, true, replay).Done? && Apply(cat, db, stmts, true, replay).statuses == statuses
    requires LeftAlone(cs, statuses, RowOf(cs[i]))
    ensures Probe(cat, db, cs[i], replay)
  {
    hide Aimed, Probe, PlanStep, ValidDb, Step, SameRow, Apply;
    var id := RowOf(cs[i]);
    PlannedAt(cat, cs, replay, stmts, i, id);
    assert Excused(cat, db, cs[..i], replay, statuses, id);
    hide PlansTo, Known, Excused;
    RowHeld(cat, db, cs, replay, stmts, statuses, i, id);
    ApplyPrefix(cat, db, stmts, true, replay, i);
    var before := Apply(cat, db, stmts[..i], true, replay).db;
    StepFollowsProbe(cat, before, cs[i], replay);
    ProbeFrame(cat, db, before, cs[i], replay);
  }

  /** And for an undo, not taking effect is being skipped. */
  lemma {:induction false} UndoSkips(cat: Catalog, db: Db, stmts: seq<Stmt>, i: nat)
    requires Known(cat, stmts) && Apply(cat, db, stmts, true, false).Done? && i < |stmts|
    ensures Apply(cat, db, stmts, true, false).statuses[i] in {Applied, Skipped}
  {
    ApplyPrefix(cat, db, stmts, true, false, i);
  }

  /** In the undo of any selection of a run's changes, that is so of a row no selected change moved away. */
  lemma UndoSkipsIff(cat: Catalog, start: Db, es: seq<Entry>, cs: seq<Change>, db: Db, id: RowId)
    requires ValidDb(cat, start) && History(cat, start, es) && ValidDb(cat, db)
    requires (forall c | c in cs :: c in Log(es)) && RunPlan(cat, db, cs, false, true).Done?
    requires forall c | c in cs && Back(cat, c) == id :: RowOf(c) == id
    ensures var o := RunPlan(cat, db, cs, false, true);
            |o.statuses| == |cs| &&
            (LeftAlone(cs, o.statuses, id) <==>
             forall i | 0 <= i < |cs| && RowOf(cs[i]) == id :: Probe(cat, db, cs[i], false)) &&
            (LeftAlone(cs, o.statuses, id) ==> SameRow(db, o.db, id))
  {
    hide Aimed, StaysOff, Probe, Back, RunPlan, ValidDb, History, Log, LeftAlone, SameRow;
    LogIsAimed(cat, start, es);
    forall j | 0 <= j < |cs|
      ensures if RowOf(cs[j]) == id then Aimed(cat, cs[j], false) else StaysOff(cat, cs[j], false, id)
    {
      assert cs[j] in Log(es);
      if RowOf(cs[j]) != id { LoggedStaysOff(cat, cs[j], id); }
    }
    SkipsLeaveRowAloneIff(cat, db, cs, false, id);
  }

  /** And in the replay of any selection of a run's changes, of every row. */
  lemma ReplaySkipsIff(cat: Catalog, start: Db, es: seq<Entry>, cs: seq<Change>, db: Db, id: RowId)
    requires ValidDb(cat, start) && History(cat, start, es) && ValidDb(cat, db)
    requires (forall c | c in cs :: c in Log(es)) && RunPlan(cat, db, cs, true, true).Done?
    ensures var o := RunPlan(cat, db, cs, true, true);
            |o.statuses| == |cs| &&
            (LeftAlone(cs, o.statuses, id) <==>
             forall i | 0 <= i < |cs| && RowOf(cs[i]) == id :: Probe(cat, db, cs[i], true)) &&
            (LeftAlone(cs, o.statuses, id) ==> SameRow(db, o.db, id))
  {
    hide Aimed, StaysOff, Probe, RunPlan, ValidDb, History, Log, LeftAlone, SameRow, Placed;
    LogReplaysInPlace(cat, start, es);
    forall j | 0 <= j < |cs|
      ensures if RowOf(cs[j]) == id then Aimed(cat, cs[j], true) else StaysOff(cat, cs[j], true, id)
    {
      assert cs[j] in Log(es);
      PlacedIsAimed(cat, cs[j], id);
    }
    SkipsLeaveRowAloneIff(cat, db, cs, true, id);
  }
}
