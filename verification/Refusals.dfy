/** When no plan can be built, read off the changes and the tables' definitions alone. */
module Refusals {
  import opened Options
  import opened Tables
  import opened Statements
  import opened Capture
  import opened Plan

  /** The image a step writes, or, undoing an insert, the one it removes. */
  function Image(c: Change, replay: bool): Option<Row> {
    if replay then (if c.op == D then c.oldRow else c.newRow)
    else if c.op == U || c.oldRow.Some? then c.oldRow else c.newRow
  }

  /** Everything that can be wrong with a change, each fault by itself. */
  predicate Faulty(cat: Catalog, c: Change, replay: bool, e: PlanError) {
    var img := Image(c, replay);
    match e
    case UncapturedTruncate => c.op == T
    case TableGone => c.table !in cat
    case NoPrimaryKey => c.table in cat && cat[c.table].pk == {}
    case KeyRedefined => c.table in cat && !(cat[c.table].pk <= c.pk.Keys)
    case NoImage => replay && img.None?
    case ShapeChanged =>
      c.table in cat && img.Some? &&
      (!(img.value.Keys <= cat[c.table].base + cat[c.table].derived) ||
       (c.op != U && !(cat[c.table].required <= img.value.Keys)))
    case NothingAssignable =>
      c.table in cat && c.op == U &&
      (img.None? || img.value.Keys * (cat[c.table].base - cat[c.table].always) == {})
  }

  /** The order in which they are looked for. */
  function Rank(e: PlanError): nat {
    match e
    case UncapturedTruncate => 0
    case TableGone => 1
    case NoPrimaryKey => 2
    case KeyRedefined => 3
    case NoImage => 4
    case ShapeChanged => 5
    case NothingAssignable => 6
  }

  predicate Sane(cat: Catalog, c: Change, replay: bool) {
    forall e :: !Faulty(cat, c, replay, e)
  }

  /** The one fault a change is refused for. */
  predicate FaultIs(cat: Catalog, c: Change, replay: bool, e: PlanError) {
    Faulty(cat, c, replay, e) && forall d | Faulty(cat, c, replay, d) :: Rank(e) <= Rank(d)
  }

  lemma StepFault(cat: Catalog, c: Change, replay: bool)
    ensures var p := PlanStep(cat, c, replay);
            if p.Planned? then Sane(cat, c, replay) else FaultIs(cat, c, replay, p.error)
  {
    if c.op != T && c.table in cat && cat[c.table].pk != {} && cat[c.table].pk <= c.pk.Keys {
      if replay { ReplayFault(cat, c); } else { UndoFault(cat, c); }
    }
  }

  lemma UndoFault(cat: Catalog, c: Change)
    requires c.op != T && c.table in cat && cat[c.table].pk != {} && cat[c.table].pk <= c.pk.Keys
    ensures var p := UndoStmt(cat[c.table], c);
            if p.Planned? then Sane(cat, c, false) else FaultIs(cat, c, false, p.error)
  {
    assert Image(c, false) == if c.op == U then c.oldRow else Coalesce(c.oldRow, c.newRow);
  }

  lemma ReplayFault(cat: Catalog, c: Change)
    requires c.op != T && c.table in cat && cat[c.table].pk != {} && cat[c.table].pk <= c.pk.Keys
    ensures var p := ReplayStmt(cat[c.table], c);
            if p.Planned? then Sane(cat, c, true) else FaultIs(cat, c, true, p.error)
  {
  }

  /** The first change at fault, and what it is refused for. */
  predicate FirstFault(cat: Catalog, cs: seq<Change>, replay: bool, i: nat, e: PlanError) {
    i < |cs| && FaultIs(cat, cs[i], replay, e) && forall j | 0 <= j < i :: Sane(cat, cs[j], replay)
  }

  predicate SomeFault(cat: Catalog, cs: seq<Change>, replay: bool) {
    exists i, e :: 0 <= i < |cs| && Faulty(cat, cs[i], replay, e)
  }

  /**
   * A selection has no plan if and only if one of its changes is at fault, wherever it
   * stands; and the error is the first fault of the first such change.
   */
  lemma PlanFailsIff(cat: Catalog, cs: seq<Change>, replay: bool)
    ensures var p := PlanFor(cat, cs, replay);
            && (p.Fails? <==> SomeFault(cat, cs, replay))
            && (p.Fails? ==> exists i :: FirstFault(cat, cs, replay, i, p.error))
  {
    hide PlanFor, PlanStep, Faulty;
    var p := PlanFor(cat, cs, replay);
    PlanIsEachStep(cat, cs, replay);
    forall i | 0 <= i < |cs|
      ensures var st := PlanStep(cat, cs[i], replay);
              if st.Planned? then Sane(cat, cs[i], replay) else FaultIs(cat, cs[i], replay, st.error)
    {
      StepFault(cat, cs[i], replay);
    }
    if p.Fails? {
      var i: nat :| FirstBad(cat, cs, replay, i) && PlanStep(cat, cs[i], replay) == Cannot(p.error);
      assert FirstFault(cat, cs, replay, i, p.error);
    }
  }

  /** So undo and replay refuse exactly then, whatever the tables hold and whether or not they skip conflicts. */
  lemma RefusedIff(cat: Catalog, db: Db, cs: seq<Change>, replay: bool, skip: bool, cap: int)
    ensures var o := RunCapped(cat, db, cs, replay, skip, cap);
            && (o.Refused? && o.why.NoPlan? <==> SomeFault(cat, cs, replay))
            && (o.Refused? && o.why.NoPlan? ==> exists i :: FirstFault(cat, cs, replay, i, o.why.error))
            && (o.Refused? && o.why == OverCap <==> !SomeFault(cat, cs, replay) && |cs| > cap)
  {
    hide PlanFor, Faulty, FaultIs;
    PlanFailsIff(cat, cs, replay);
    if PlanFor(cat, cs, replay).Steps? { OnlySteps(cat, db, PlanFor(cat, cs, replay).stmts, skip, replay); }
  }

  lemma {:induction false} OnlySteps(cat: Catalog, db: Db, stmts: seq<Stmt>, skip: bool, replay: bool)
    requires Known(cat, stmts)
    ensures var o := Apply(cat, db, stmts, skip, replay); o.Refused? ==> o.why.AtStep? && o.why.n < |stmts|
    decreases |stmts|
  {
    hide Step;
    if stmts != [] { OnlySteps(cat, db, stmts[..|stmts| - 1], skip, replay); }
  }

  /** No selection steps over a truncate that was not captured. */
  lemma TruncateRefuses(cat: Catalog, db: Db, cs: seq<Change>, replay: bool, skip: bool, i: nat)
    requires i < |cs| && cs[i].op == T
    ensures RunPlan(cat, db, cs, replay, skip).Refused?
    ensures (forall j | 0 <= j < i :: Sane(cat, cs[j], replay)) ==>
              RunPlan(cat, db, cs, replay, skip) == Refused(NoPlan(UncapturedTruncate))
  {
    hide PlanFor;
    PlanFailsIff(cat, cs, replay);
    assert Faulty(cat, cs[i], replay, UncapturedTruncate);
  }
}
