/** `_plan`: one guarded statement per selected change, in either direction. */
module Plan {
  import opened Options
  import opened Tables
  import opened Statements
  import opened Capture

  datatype Planned = Planned(stmt: Stmt) | Cannot(error: PlanError)

  /** A guard never compares a generated column. */
  function Guard(s: Schema, img: Option<Row>): Option<Row> {
    if img.None? then None else Some(img.value - s.derived)
  }

  /** `_validate_image`. */
  predicate Fits(s: Schema, img: Option<Row>, complete: bool) {
    img.None? ||
    (img.value.Keys <= s.Columns() && (complete ==> s.required <= img.value.Keys))
  }

  function Coalesce(a: Option<Row>, b: Option<Row>): Option<Row> {
    if a.Some? then a else b
  }

  function PlanStep(cat: Catalog, c: Change, replay: bool): Planned {
    if c.op == T then Cannot(UncapturedTruncate)
    else if c.table !in cat then Cannot(TableGone)
    else
      var s := cat[c.table];
      if s.pk == {} then Cannot(NoPrimaryKey)
      else if !(s.pk <= c.pk.Keys) then Cannot(KeyRedefined)
      else if replay then ReplayStmt(s, c)
      else UndoStmt(s, c)
  }

  /** The statement that reverses a change. */
  function UndoStmt(s: Schema, c: Change): Planned
    requires c.op != T
  {
    var id := RowId(c.table, s.Key(c.pk));
    if !Fits(s, if c.op == U then c.oldRow else Coalesce(c.oldRow, c.newRow), c.op != U) then Cannot(ShapeChanged)
    else match c.op
      case I => Planned(DeleteStmt(id, Guard(s, c.newRow)))
      case D => Planned(InsertStmt(c.table, c.oldRow.GetOr(map[])))
      case U =>
        var img := c.oldRow.GetOr(map[]);
        if img.Keys * s.Settable() == {} then Cannot(NothingAssignable)
        else Planned(UpdateStmt(id, img.Keys * s.Settable(), img, Guard(s, c.newRow)))
  }

  /** The statement that makes a change again. */
  function ReplayStmt(s: Schema, c: Change): Planned
    requires c.op != T
  {
    var id := RowId(c.table, s.Key(c.pk));
    var img := if c.op == D then c.oldRow else c.newRow;
    if img.None? then Cannot(NoImage)
    else if !Fits(s, img, c.op != U) then Cannot(ShapeChanged)
    else match c.op
      case I => Planned(InsertStmt(c.table, img.value))
      case D => Planned(DeleteStmt(id, Guard(s, c.oldRow)))
      case U =>
        if img.value.Keys * s.Settable() == {} then Cannot(NothingAssignable)
        else Planned(UpdateStmt(id, img.value.Keys * s.Settable(), img.value, Guard(s, c.oldRow)))
  }

  datatype PlanResult = Steps(stmts: seq<Stmt>) | Fails(error: PlanError)

  /** The plan for changes already in application order; one bad change fails it all. */
  function PlanFor(cat: Catalog, cs: seq<Change>, replay: bool): (p: PlanResult)
    ensures p.Steps? ==> Known(cat, p.stmts) && |p.stmts| == |cs|
    decreases |cs|
  {
    if cs == [] then Steps([])
    else
      var n := |cs| - 1;
      match PlanFor(cat, cs[..n], replay)
      case Fails(e) => Fails(e)
      case Steps(stmts) =>
        match PlanStep(cat, cs[n], replay)
        case Cannot(e) => Fails(e)
        case Planned(st) => Steps(stmts + [st])
  }

  /** The first of these changes that no statement can be built for. */
  predicate FirstBad(cat: Catalog, cs: seq<Change>, replay: bool, i: nat) {
    i < |cs| && PlanStep(cat, cs[i], replay).Cannot? && forall j | 0 <= j < i :: PlanStep(cat, cs[j], replay).Planned?
  }

  /** A plan is each change's own statement, in order; or it fails on the first change that has none. */
  lemma {:induction false} PlanIsEachStep(cat: Catalog, cs: seq<Change>, replay: bool)
    ensures var p := PlanFor(cat, cs, replay);
            && (p.Steps? ==> forall i | 0 <= i < |cs| :: PlanStep(cat, cs[i], replay) == Planned(p.stmts[i]))
            && (p.Fails? ==> exists i: nat :: FirstBad(cat, cs, replay, i) && PlanStep(cat, cs[i], replay) == Cannot(p.error))
            && (p.Steps? <==> forall i | 0 <= i < |cs| :: PlanStep(cat, cs[i], replay).Planned?)
    decreases |cs|
  {
    hide PlanStep;
    if cs != [] {
      var n := |cs| - 1;
      var p := PlanFor(cat, cs, replay);
      PlanIsEachStep(cat, cs[..n], replay);
      if PlanFor(cat, cs[..n], replay).Fails? {
        var i: nat :| FirstBad(cat, cs[..n], replay, i) && PlanStep(cat, cs[..n][i], replay) == Cannot(p.error);
        assert forall j | 0 <= j < n :: cs[..n][j] == cs[j];
        assert FirstBad(cat, cs, replay, i);
      } else if PlanStep(cat, cs[n], replay).Cannot? {
        assert forall j | 0 <= j < n :: cs[..n][j] == cs[j];
        assert FirstBad(cat, cs, replay, n);
      }
    }
  }

  lemma {:induction false} PlanConcat(cat: Catalog, a: seq<Change>, b: seq<Change>, replay: bool)
    ensures var p := PlanFor(cat, a, replay);
            var q := PlanFor(cat, b, replay);
            PlanFor(cat, a + b, replay) ==
              if p.Fails? then p else if q.Fails? then q else Steps(p.stmts + q.stmts)
    decreases |b|
  {
    hide PlanStep;
    if b == [] {
      assert a + b == a;
    } else {
      var n := |b| - 1;
      assert (a + b)[..|a| + n] == a + b[..n] && (a + b)[|a| + n] == b[n];
      PlanConcat(cat, a, b[..n], replay);
    }
  }

  lemma PlanFirst(cat: Catalog, c: Change, rest: seq<Change>, replay: bool)
    requires PlanStep(cat, c, replay).Planned? && PlanFor(cat, rest, replay).Steps?
    ensures PlanFor(cat, [c] + rest, replay) ==
            Steps([PlanStep(cat, c, replay).stmt] + PlanFor(cat, rest, replay).stmts)
  {
    hide PlanStep;
    assert [c][..0] == [];
    PlanConcat(cat, [c], rest, replay);
  }

  /** The selected changes, oldest first (`_where`). */
  function Selected(log: seq<Change>, sel: Change -> bool): seq<Change> {
    if log == [] then []
    else
      var n := |log| - 1;
      Selected(log[..n], sel) + if sel(log[n]) then [log[n]] else []
  }

  /** Written in the order the log numbers them. */
  predicate InIdOrder(cs: seq<Change>) {
    forall i, j | 0 <= i < j < |cs| :: cs[i].id < cs[j].id
  }

  /** A selection has every change that matches and no other. */
  lemma {:induction false} SelectedIs(log: seq<Change>, sel: Change -> bool)
    ensures forall c :: c in Selected(log, sel) <==> c in log && sel(c)
    decreases |log|
  {
    if log != [] {
      var earlier, last := log[..|log| - 1], log[|log| - 1];
      SelectedIs(earlier, sel);
      InSnoc(earlier, last, log);
    }
  }

  lemma InSnoc(earlier: seq<Change>, last: Change, cs: seq<Change>)
    requires cs == earlier + [last]
    ensures forall c :: c in cs <==> c in earlier || c == last
  {
  }

  /** And it keeps the order of the log. */
  lemma {:induction false} SelectedInOrder(log: seq<Change>, sel: Change -> bool)
    requires InIdOrder(log)
    ensures InIdOrder(Selected(log, sel))
    decreases |log|
  {
    if log != [] {
      var earlier := log[..|log| - 1];
      SelectedInOrder(earlier, sel);
      SelectedIs(earlier, sel);
      forall c | c in Selected(earlier, sel) ensures c.id < log[|log| - 1].id {
        var i :| 0 <= i < |earlier| && earlier[i] == c;
        assert log[i] == c;
      }
    }
  }

  /** Undo walks history backwards. */
  function Reverse(cs: seq<Change>): (r: seq<Change>)
    ensures |r| == |cs|
    ensures forall i | 0 <= i < |cs| :: r[i] == cs[|cs| - 1 - i]
  {
    if cs == [] then [] else [cs[|cs| - 1]] + Reverse(cs[..|cs| - 1])
  }

  lemma ReverseSnoc(cs: seq<Change>, c: Change)
    ensures Reverse(cs + [c]) == [c] + Reverse(cs)
  {
    assert (cs + [c])[..|cs|] == cs;
  }

  /** undo or replay, with confirm => true, of changes already in application order. */
  function RunPlan(cat: Catalog, db: Db, cs: seq<Change>, replay: bool, skip: bool): Outcome {
    match PlanFor(cat, cs, replay)
    case Fails(e) => Refused(NoPlan(e))
    case Steps(stmts) => Apply(cat, db, stmts, skip, replay)
  }

  /** undo() of a log, oldest first as it was written. */
  function Undo(cat: Catalog, db: Db, log: seq<Change>, skip: bool): Outcome {
    RunPlan(cat, db, Reverse(log), false, skip)
  }

  /** replay() of a log. */
  function Replayed(cat: Catalog, db: Db, log: seq<Change>, skip: bool): Outcome {
    RunPlan(cat, db, log, true, skip)
  }

  /** Undoing a log undoes its newest change and then the rest. */
  lemma UndoNewest(cat: Catalog, db: Db, older: seq<Change>, c: Change, skip: bool)
    requires PlanStep(cat, c, false).Planned? && PlanStep(cat, c, false).stmt.Table() in cat
    requires PlanFor(cat, Reverse(older), false).Steps?
    ensures PlanFor(cat, Reverse(older + [c]), false).Steps?
    ensures var first := Step(cat, db, PlanStep(cat, c, false).stmt, skip, false);
            Undo(cat, db, older + [c], skip) ==
              if first.None? then Refused(AtStep(0)) else Then([first.value.1], Undo(cat, first.value.0, older, skip))
  {
    hide Step, Apply, PlanStep, PlanFor, Reverse;
    ReverseSnoc(older, c);
    PlanFirst(cat, c, Reverse(older), false);
    ApplyFirst(cat, db, PlanStep(cat, c, false).stmt, PlanFor(cat, Reverse(older), false).stmts, skip, false);
  }

  /** Replaying a log replays its newest change last. */
  lemma ReplayNewest(cat: Catalog, db: Db, older: seq<Change>, c: Change, skip: bool)
    requires PlanStep(cat, c, true).Planned? && PlanStep(cat, c, true).stmt.Table() in cat
    requires PlanFor(cat, older, true).Steps?
    ensures PlanFor(cat, older + [c], true) == Steps(PlanFor(cat, older, true).stmts + [PlanStep(cat, c, true).stmt])
    ensures var before := Replayed(cat, db, older, skip);
            Replayed(cat, db, older + [c], skip) ==
              if before.Refused? then before
              else
                var last := Step(cat, before.db, PlanStep(cat, c, true).stmt, skip, true);
                if last.None? then Refused(AtStep(|older|)) else Done(last.value.0, before.statuses + [last.value.1])
  {
    hide Step, PlanStep, PlanFor, Apply;
    var st, rest := PlanStep(cat, c, true).stmt, PlanFor(cat, older, true).stmts;
    PlanLast(cat, older, c, true);
    ApplyLast(cat, db, rest, st, skip, true);
  }

  lemma PlanLast(cat: Catalog, older: seq<Change>, c: Change, replay: bool)
    requires PlanStep(cat, c, replay).Planned? && PlanFor(cat, older, replay).Steps?
    ensures PlanFor(cat, older + [c], replay) ==
            Steps(PlanFor(cat, older, replay).stmts + [PlanStep(cat, c, replay).stmt])
  {
    hide PlanStep;
    assert (older + [c])[..|older|] == older;
  }

  lemma ApplyLast(cat: Catalog, db: Db, rest: seq<Stmt>, st: Stmt, skip: bool, replay: bool)
    requires Known(cat, rest) && st.Table() in cat
    ensures Known(cat, rest + [st])
    ensures var before := Apply(cat, db, rest, skip, replay);
            Apply(cat, db, rest + [st], skip, replay) ==
              if before.Refused? then before
              else
                var last := Step(cat, before.db, st, skip, replay);
                if last.None? then Refused(AtStep(|rest|)) else Done(last.value.0, before.statuses + [last.value.1])
  {
    hide Step;
    assert (rest + [st])[..|rest|] == rest && (rest + [st])[|rest|] == st;
  }

  /** The blast-radius cap is checked after planning and before the first step. */
  function RunCapped(cat: Catalog, db: Db, cs: seq<Change>, replay: bool, skip: bool, cap: int): Outcome {
    if PlanFor(cat, cs, replay).Steps? && |cs| > cap then Refused(OverCap)
    else RunPlan(cat, db, cs, replay, skip)
  }
}
