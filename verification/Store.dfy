/** The live store: tables and change log updated in place, by captured writes, undo and replay. */
module Stores {
  import opened Options
  import opened Tables
  import opened Statements
  import opened Capture
  import opened Plan
  import opened Conflicts
  import opened Preview
  import opened Redo
  import opened Refusals

  /** on_truncate: capture, block or allow. */
  datatype OnTruncate = CaptureRows | Block | Allow
  datatype TruncateResult = Truncated | Blocked | TooManyRows

  /** The rows of one table. */
  function RowsOf(db: Db, table: string): set<RowId> {
    set id | id in db && id.table == table
  }

  class Store {
    const cat: Catalog
    const modes: Modes
    var live: Db
    var log: seq<Change>
    var nextId: nat

    ghost predicate Valid()
      reads this
    {
      ValidDb(cat, live) && UsableModes(cat, modes)
    }

    constructor (cat: Catalog, modes: Modes)
      requires ValidCatalog(cat) && UsableModes(cat, modes)
      ensures Valid() && this.cat == cat && this.modes == modes
      ensures live == map[] && log == [] && nextId == 0
    {
      this.cat, this.modes := cat, modes;
      live, log, nextId := map[], [], 0;
    }

    /** The row trigger: decide what to record about a write that is about to happen. */
    method Record(w: Write) returns (c: Option<Change>)
      requires w.Table() in cat && (w.Ins? || w.id in live)
      ensures c == Captured(cat, live, w, w.Table() in modes.full, modes.keepNoOp, nextId)
      ensures w.Upd? ==> FollowsMode(live[w.id], w.row, w.Table() in modes.full, modes.keepNoOp, c)
      ensures w.Ins? ==> c.Some? && c.value.oldRow == None && c.value.newRow == Some(w.row)
      ensures w.Del? ==> c.Some? && c.value.oldRow == Some(live[w.id]) && c.value.newRow == None
    {
      if w.Upd? { UpdateFollowsMode(cat, live, w, w.Table() in modes.full, modes.keepNoOp, nextId); }
      hide FollowsMode;
      var s, op := cat[w.Table()], I;
      var oldRow: Option<Row>, newRow: Option<Row>, pkSource: Row := None, None, map[];
      if w.Ins? {
        newRow, pkSource := Some(w.row), w.row;
      } else if w.Upd? {
        op, oldRow, newRow, pkSource := U, Some(live[w.id]), Some(w.row), w.row;
        var moved := Changed(live[w.id], w.row);
        if moved == {} {
          if !modes.keepNoOp { return None; }
        } else if w.Table() !in modes.full {
          oldRow, newRow := Some(Restrict(live[w.id], moved)), Some(Restrict(w.row, moved));
        }
      } else {
        op, oldRow, pkSource := D, Some(live[w.id]), live[w.id];
      }
      c := Some(Change(nextId, w.Table(), op, s.Key(pkSource), oldRow, newRow));
    }

    method Append(c: Option<Change>)
      modifies `log, `nextId
      ensures log == old(log) + (if c.Some? then [c.value] else [])
      ensures nextId == old(nextId) + |log| - |old(log)|
    {
      if c.Some? {
        log, nextId := log + [c.value], nextId + 1;
      }
    }

    /** One captured row write. */
    method DoWrite(w: Write)
      requires Valid() && Legal(cat, live, w)
      modifies this
      ensures Valid() && live == Written(cat, old(live), w)
      ensures log == old(log) + Log([Entry(w, Captured(cat, old(live), w, w.Table() in modes.full, modes.keepNoOp, old(nextId)))])
      ensures nextId == old(nextId) + |log| - |old(log)|
    {
      hide Captured, Log, FollowsMode;
      var c := Record(w);
      WrittenIsValid(cat, live, w);
      LogOne(Entry(w, c));
      live := Written(cat, live, w);
      Append(c);
    }

    /** Copy every row about to be truncated into the log, as a delete. */
    method RecordRows(rows: set<RowId>) returns (ghost es: seq<Entry>)
      requires Valid() && rows <= live.Keys
      modifies `log, `nextId
      ensures History(cat, live, es) && End(cat, live, es) == live - rows
      ensures log == old(log) + Log(es) && nextId == old(nextId) + |Log(es)|
    {
      hide History, End, Log, Captured, ValidDb, Written, Extends;
      NoHistory(cat, live);
      es := [];
      var rest := rows;
      while rest != {}
        invariant rest <= rows
        invariant History(cat, live, es) && End(cat, live, es) == live - (rows - rest)
        invariant log == old(log) + Log(es) && nextId == old(nextId) + |Log(es)|
        decreases rest
      {
        var id :| id in rest;
        DeleteExtends(cat, live, rows - rest, id, nextId);
        ghost var e := Entry(Del(id), Captured(cat, live, Del(id), false, false, nextId));
        HistorySnoc(cat, live, es, e);
        Append(Some(Change(nextId, id.table, D, cat[id.table].Key(live[id]), Some(live[id]), None)));
        es, rest := es + [e], rest - {id};
        assert rows - rest == rows - (rest + {id}) + {id};
      }
    }

    /**
     * TRUNCATE of a covered table.  Captured, it is a run of recorded deletes;
     * allowed uncaptured, it leaves only a marker no plan can step over.
     */
    method Truncate(table: string, mode: OnTruncate, cap: nat) returns (r: TruncateResult, ghost es: seq<Entry>)
      requires Valid() && table in cat
      modifies this
      ensures Valid()
      ensures r == if mode == Block then Blocked
                   else if mode == CaptureRows && |RowsOf(old(live), table)| > cap then TooManyRows
                   else Truncated
      ensures r != Truncated ==> live == old(live) && log == old(log) && nextId == old(nextId)
      ensures r == Truncated ==> live == old(live) - RowsOf(old(live), table)
      ensures r == Truncated && mode == CaptureRows ==>
                History(cat, old(live), es) && End(cat, old(live), es) == live && log == old(log) + Log(es)
      ensures r == Truncated && mode == Allow ==>
                log == old(log) + [Change(old(nextId), table, T, map[], None, None)]
    {
      es := [];
      if mode == Block { return Blocked, []; }
      var rows := RowsOf(live, table);
      if mode == CaptureRows {
        if |rows| > cap { return TooManyRows, []; }
        es := RecordRows(rows);
      } else {
        Append(Some(Change(nextId, table, T, map[], None, None)));
      }
      RemoveAllKeepsValid(cat, live, rows);
      live := live - rows;
      r := Truncated;
    }

    /** `_plan`: build every statement before any is run. */
    method BuildPlan(cs: seq<Change>, replay: bool) returns (p: PlanResult)
      ensures p == PlanFor(cat, cs, replay)
      ensures p.Fails? <==> exists i, e :: 0 <= i < |cs| && Faulty(cat, cs[i], replay, e)
      ensures p.Fails? ==> exists i :: FirstFault(cat, cs, replay, i, p.error)
    {
      hide Faulty, FaultIs, PlanStep;
      PlanFailsIff(cat, cs, replay);
      var stmts: seq<Stmt> := [];
      for i := 0 to |cs|
        invariant PlanFor(cat, cs[..i], replay) == Steps(stmts)
      {
        assert cs[..i + 1][..i] == cs[..i];
        var step := PlanStep(cat, cs[i], replay);
        if step.Cannot? {
          PlanPrefixFails(cat, cs, replay, i + 1);
          return Fails(step.error);
        }
        stmts := stmts + [step.stmt];
      }
      assert cs[..|cs|] == cs;
      p := Steps(stmts);
    }

    /** One statement with the row trigger firing on what it changes. */
    method RunStatement(st: Stmt) returns (effect: Effect)
      requires Valid() && Assignable(cat, st)
      modifies this
      ensures Valid() && effect == Exec(cat, old(live), st)
      ensures live == if effect.Hit? then effect.db else old(live)
      ensures log == old(log) + Log(Recording(cat, old(live), st, modes, old(nextId)))
      ensures nextId == old(nextId) + |log| - |old(log)|
    {
      effect := Exec(cat, live, st);
      if effect.Hit? {
        WriteIsLegal(cat, live, st);
        DoWrite(WriteOf(cat, live, st));
      }
    }

    /** One turn of the apply loop; None means the operation must be refused. */
    method ApplyStep(st: Stmt, skip: bool, replay: bool) returns (status: Option<Status>)
      requires Valid() && Assignable(cat, st)
      modifies this
      ensures Valid()
      ensures var step := Step(cat, old(live), st, skip, replay);
              if step.None? then status.None?
              else status == Some(step.value.1) && live == step.value.0
      ensures status == Some(Satisfied) <==> replay && st.DeleteStmt? && st.id !in old(live)
      ensures status == Some(Applied) <==> Exec(cat, old(live), st).Hit?
      ensures status.None? ==> !skip || Exec(cat, old(live), st).Raise?
      ensures log == old(log) + Log(Recording(cat, old(live), st, modes, old(nextId)))
      ensures nextId == old(nextId) + |log| - |old(log)|
    {
      var absent := st.DeleteStmt? && st.id !in live;
      var effect := RunStatement(st);
      if effect.Hit? {
        status := Some(Applied);
      } else if effect.Miss? && replay && absent {
        status := Some(Satisfied);
      } else if effect.Miss? && skip {
        status := Some(Skipped);
      } else {
        status := None;
      }
    }

    /**
     * The apply loop shared by undo and replay.  One conflict, without
     * skip_conflicts, undoes the whole transaction.
     */
    method ApplyPlan(stmts: seq<Stmt>, skip: bool, replay: bool) returns (o: Outcome)
      requires Valid() && Known(cat, stmts) && forall i | 0 <= i < |stmts| :: Assignable(cat, stmts[i])
      modifies this
      ensures Valid() && o == Apply(cat, old(live), stmts, skip, replay)
      ensures o.Refused? ==> live == old(live) && log == old(log) && nextId == old(nextId)
      ensures o.Done? ==>
                && live == o.db
                && log == old(log) + Log(RecordedRun(cat, old(live), stmts, skip, replay, modes, old(nextId)))
                && nextId == old(nextId) + |log| - |old(log)|
    {
      hide Apply, Step, Log, Recording, RecordedRun, Assignable, ValidDb, UsableModes;
      var savedLive, savedLog, savedId := live, log, nextId;
      var statuses: seq<Status> := [];
      ghost var es: seq<Entry> := [];
      NothingRun(cat, live, stmts, skip, replay, modes, nextId);
      for i := 0 to |stmts|
        invariant Valid() && Apply(cat, old(live), stmts[..i], skip, replay) == Done(live, statuses)
        invariant es == RecordedRun(cat, old(live), stmts[..i], skip, replay, modes, old(nextId))
        invariant log == old(log) + Log(es) && nextId == old(nextId) + |Log(es)|
      {
        var st := stmts[i];
        OneTurn(cat, old(live), stmts, i, skip, replay, modes, old(nextId));
        ghost var more := Recording(cat, live, st, modes, nextId);
        LogConcat(es, more);
        var status := ApplyStep(st, skip, replay);
        if status.None? {
          live, log, nextId := savedLive, savedLog, savedId;
          return Refused(AtStep(i));
        }
        statuses := statuses + [status.value];
        es := es + more;
      }
      assert stmts[..|stmts|] == stmts;
      o := Done(live, statuses);
    }

    /** The changes a selection matches, in the order the plan takes them. */
    method Select(sel: Change -> bool, replay: bool) returns (cs: seq<Change>)
      ensures cs == if replay then Selected(log, sel) else Reverse(Selected(log, sel))
      ensures forall c :: c in cs <==> c in log && sel(c)
      ensures InIdOrder(log) ==> InIdOrder(if replay then cs else Reverse(cs))
    {
      Picked(log, sel);
      hide Reverse, Selected;
      NothingSelected(log, sel);
      cs := [];
      for i := 0 to |log|
        invariant cs == if replay then Selected(log[..i], sel) else Reverse(Selected(log[..i], sel))
      {
        SelectedNext(log, i, sel);
        if sel(log[i]) {
          cs := if replay then cs + [log[i]] else [log[i]] + cs;
        }
      }
      assert log[..|log|] == log;
    }

    /** The conflict column of a preview: each row is probed once, at its first change. */
    method ProbeConflicts(cs: seq<Change>, replay: bool) returns (flags: seq<bool>)
      ensures |flags| == |cs|
      ensures forall i | 0 <= i < |cs| :: flags[i] == Flagged(cat, live, cs, replay, i)
    {
      hide Probe;
      var seen: set<RowId> := {};
      flags := [];
      for i := 0 to |cs|
        invariant |flags| == i && seen == set j | 0 <= j < i :: RowOf(cs[j])
        invariant forall j | 0 <= j < i :: flags[j] == Flagged(cat, live, cs, replay, j)
      {
        var first := RowOf(cs[i]) !in seen;
        assert first == FirstSeen(cs, i);
        flags := flags + [first && Probe(cat, live, cs[i], replay)];
        seen := seen + {RowOf(cs[i])};
      }
    }

    /** undo() and replay() with confirm => true: plan, cap, then all or nothing. */
    method Run(sel: Change -> bool, replay: bool, skip: bool, cap: int) returns (o: Outcome)
      requires Valid()
      modifies this
      ensures Valid()
      ensures var picked := Selected(old(log), sel);
              var cs := if replay then picked else Reverse(picked);
              && o == RunCapped(cat, old(live), cs, replay, skip, cap)
              && (o.Done? ==>
                    log == old(log) + Log(RecordedRun(cat, old(live), PlanFor(cat, cs, replay).stmts,
                                                      skip, replay, modes, old(nextId))))
      ensures o.Refused? ==> live == old(live) && log == old(log) && nextId == old(nextId)
      ensures o.Done? ==> live == o.db && nextId == old(nextId) + |log| - |old(log)|
      ensures (o.Refused? && o.why.NoPlan?) <==> exists c, e :: c in old(log) && sel(c) && Faulty(cat, c, replay, e)
      ensures (exists c :: c in old(log) && sel(c) && c.op == T) ==> o.Refused?
    {
      var cs := Select(sel, replay);
      AnyFault(cat, log, sel, cs, replay);
      RefusedIff(cat, live, cs, replay, skip, cap);
      hide Faulty, Apply, RecordedRun, PlanFor;
      var plan := BuildPlan(cs, replay);
      if plan.Fails? { return Refused(NoPlan(plan.error)); }
      if |plan.stmts| > cap { return Refused(OverCap); }
      PlanIsAssignable(cat, cs, replay);
      o := ApplyPlan(plan.stmts, skip, replay);
    }
  }

  lemma NothingSelected(log: seq<Change>, sel: Change -> bool)
    ensures Selected(log[..0], sel) == [] && Reverse([]) == []
  {
  }

  lemma SelectedNext(log: seq<Change>, i: nat, sel: Change -> bool)
    requires i < |log|
    ensures Selected(log[..i + 1], sel) == Selected(log[..i], sel) + if sel(log[i]) then [log[i]] else []
    ensures Reverse(Selected(log[..i + 1], sel)) ==
            (if sel(log[i]) then [log[i]] else []) + Reverse(Selected(log[..i], sel))
  {
    hide Reverse;
    assert log[..i + 1][..i] == log[..i] && log[..i + 1][i] == log[i];
    ReverseSnoc(Selected(log[..i], sel), log[i]);
  }

  lemma Picked(log: seq<Change>, sel: Change -> bool)
    ensures forall c :: c in Selected(log, sel) <==> c in log && sel(c)
    ensures forall c :: c in Reverse(Selected(log, sel)) <==> c in log && sel(c)
    ensures Reverse(Reverse(Selected(log, sel))) == Selected(log, sel)
    ensures InIdOrder(log) ==> InIdOrder(Selected(log, sel))
  {
    hide Selected;
    SelectedIs(log, sel);
    ReverseHas(Selected(log, sel));
    if InIdOrder(log) { SelectedInOrder(log, sel); }
  }

  lemma ReverseHas(cs: seq<Change>)
    ensures forall c :: c in Reverse(cs) <==> c in cs
  {
    var r := Reverse(cs);
    forall c ensures c in r <==> c in cs {
      if c in cs {
        var i :| 0 <= i < |cs| && cs[i] == c;
        assert r[|cs| - 1 - i] == c;
      }
    }
  }

  /** A fault among the changes picked is one among the changes that match. */
  lemma AnyFault(cat: Catalog, log: seq<Change>, sel: Change -> bool, cs: seq<Change>, replay: bool)
    requires forall c :: c in cs <==> c in log && sel(c)
    ensures SomeFault(cat, cs, replay) <==> exists c, e :: c in log && sel(c) && Faulty(cat, c, replay, e)
    ensures (exists c :: c in log && sel(c) && c.op == T) ==> SomeFault(cat, cs, replay)
  {
    if c :| c in log && sel(c) && c.op == T { assert Faulty(cat, c, replay, UncapturedTruncate); }
    hide Faulty;
    if SomeFault(cat, cs, replay) {
      var i, e :| 0 <= i < |cs| && Faulty(cat, cs[i], replay, e);
      assert cs[i] in cs;
    }
    if c, e :| c in log && sel(c) && Faulty(cat, c, replay, e) {
      var i :| 0 <= i < |cs| && cs[i] == c;
    }
  }

  lemma NothingRun(cat: Catalog, db: Db, stmts: seq<Stmt>, skip: bool, replay: bool, m: Modes, next: nat)
    requires Known(cat, stmts)
    ensures Apply(cat, db, stmts[..0], skip, replay) == Done(db, [])
    ensures RecordedRun(cat, db, stmts[..0], skip, replay, m, next) == [] && Log([]) == []
  {
  }

  /** One turn of the loop, on the functions it is specified by. */
  lemma OneTurn(cat: Catalog, db: Db, stmts: seq<Stmt>, i: nat, skip: bool, replay: bool, m: Modes, next: nat)
    requires Known(cat, stmts) && i < |stmts| && Apply(cat, db, stmts[..i], skip, replay).Done?
    ensures var before := Apply(cat, db, stmts[..i], skip, replay);
            var step := Step(cat, before.db, stmts[i], skip, replay);
            if step.None? then Apply(cat, db, stmts, skip, replay) == Refused(AtStep(i))
            else
              Apply(cat, db, stmts[..i + 1], skip, replay) == Done(step.value.0, before.statuses + [step.value.1]) &&
              var es := RecordedRun(cat, db, stmts[..i], skip, replay, m, next);
              RecordedRun(cat, db, stmts[..i + 1], skip, replay, m, next)
                == es + Recording(cat, before.db, stmts[i], m, next + |Log(es)|)
  {
    hide Step, Recording, Log;
    assert stmts[..i + 1][..i] == stmts[..i] && stmts[..i + 1][i] == stmts[i];
    hide RecordedRun;
    if Step(cat, Apply(cat, db, stmts[..i], skip, replay).db, stmts[i], skip, replay).None? {
      RefusedPrefix(cat, db, stmts, skip, replay, i + 1);
    } else {
      RecordedTurn(cat, db, stmts, i, skip, replay, m, next);
    }
  }

  lemma RecordedTurn(cat: Catalog, db: Db, stmts: seq<Stmt>, i: nat, skip: bool, replay: bool, m: Modes, next: nat)
    requires Known(cat, stmts) && i < |stmts| && Apply(cat, db, stmts[..i], skip, replay).Done?
    requires Apply(cat, db, stmts[..i + 1], skip, replay).Done?
    ensures var es := RecordedRun(cat, db, stmts[..i], skip, replay, m, next);
            RecordedRun(cat, db, stmts[..i + 1], skip, replay, m, next)
              == es + Recording(cat, Apply(cat, db, stmts[..i], skip, replay).db, stmts[i], m, next + |Log(es)|)
  {
    hide Apply, Recording, Log;
    assert stmts[..i + 1][..i] == stmts[..i] && stmts[..i + 1][i] == stmts[i];
  }

  lemma NoHistory(cat: Catalog, db: Db)
    ensures History(cat, db, []) && End(cat, db, []) == db && Log([]) == []
  {
  }

  lemma LogOne(e: Entry)
    ensures Log([e]) == if e.change.Some? then [e.change.value] else []
  {
    assert [e][..0] == [];
  }

  lemma DeleteExtends(cat: Catalog, db: Db, gone: set<RowId>, id: RowId, next: nat)
    requires ValidDb(cat, db) && id in db && id !in gone
    ensures var e := Entry(Del(id), Captured(cat, db, Del(id), false, false, next));
            && id.table in cat
            && e.change == Some(Change(next, id.table, D, cat[id.table].Key(db[id]), Some(db[id]), None))
            && Extends(cat, db - gone, e) && Written(cat, db - gone, e.write) == db - (gone + {id})
  {
    assert (db - gone)[id] == db[id] && db - gone - {id} == db - (gone + {id});
    DeleteRecord(cat, db, id, next);
    RemoveAllKeepsValid(cat, db, gone);
    hide ValidDb, FollowsMode, Faithful, ExactOld;
    TriggerIsFaithful(cat, db - gone, Del(id), false, false, next);
  }

  lemma DeleteRecord(cat: Catalog, db: Db, id: RowId, next: nat)
    requires ValidDb(cat, db) && id in db
    ensures id.table in cat
    ensures Captured(cat, db, Del(id), false, false, next)
         == Some(Change(next, id.table, D, cat[id.table].Key(db[id]), Some(db[id]), None))
  {
  }

  lemma RemoveAllKeepsValid(cat: Catalog, db: Db, ids: set<RowId>)
    requires ValidDb(cat, db)
    ensures ValidDb(cat, db - ids)
  {
  }

  lemma {:induction false} PlanPrefixFails(cat: Catalog, cs: seq<Change>, replay: bool, i: nat)
    requires i <= |cs| && PlanFor(cat, cs[..i], replay).Fails?
    ensures PlanFor(cat, cs, replay) == PlanFor(cat, cs[..i], replay)
    decreases |cs|
  {
    if i == |cs| {
      assert cs[..i] == cs;
    } else {
      assert cs[..|cs| - 1][..i] == cs[..i];
      PlanPrefixFails(cat, cs[..|cs| - 1], replay, i);
    }
  }

  lemma {:induction false} RefusedPrefix(cat: Catalog, db: Db, stmts: seq<Stmt>, skip: bool, replay: bool, i: nat)
    requires Known(cat, stmts) && i <= |stmts| && Apply(cat, db, stmts[..i], skip, replay).Refused?
    ensures Apply(cat, db, stmts, skip, replay) == Apply(cat, db, stmts[..i], skip, replay)
    decreases |stmts|
  {
    hide Step;
    if i == |stmts| {
      assert stmts[..i] == stmts;
    } else {
      assert stmts[..|stmts| - 1][..i] == stmts[..i];
      RefusedPrefix(cat, db, stmts[..|stmts| - 1], skip, replay, i);
    }
  }
}
