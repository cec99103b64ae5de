/** Replay on tables that are not where the run began: exactly when it goes through, and what its preview says. */
module Forward {
  import opened Options
  import opened Json
  import opened Tables
  import opened Statements
  import opened Capture
  import opened Plan
  import opened Inverse
  import opened Window
  import opened Conflicts
  import opened Preview
  import opened Replay
  import opened AsOf
  import R = Reliable

  // ---- One recorded write, made again ----------------------------------------------------

  /** What the live tables must look like for a recorded write to be made again. */
  ghost predicate Ready(cat: Catalog, db: Db, before: Db, w: Write, c: Change)
    requires w.Table() in cat
  {
    var s, id := cat[w.Table()], Target(cat, w);
    match w
    case Ins(_, _) => id !in db
    case Del(_) => id !in db || (id in before && Covers(db[id], before[id], s.base))
    case Upd(_, _) => id in db && id in before && Covers(db[id], before[id], c.oldRow.GetOr(map[]).Keys * s.base)
  }

  /** The tables after it was. */
  ghost function Redone(cat: Catalog, db: Db, w: Write, c: Change): Db
    requires w.Table() in cat
  {
    var s, id := cat[w.Table()], Target(cat, w);
    match w
    case Ins(_, row) => db[id := row]
    case Del(_) => db - {id}
    case Upd(_, _) =>
      var img := c.newRow.GetOr(map[]);
      if id in db then db[id := Assign(s, db[id], img.Keys * s.Settable(), img)] else db
  }

  /** What a replayed step comes to. */
  ghost predicate StepIs(cat: Catalog, db: Db, before: Db, w: Write, c: Change)
    requires w.Table() in cat
  {
    PlanStep(cat, c, true).Planned? && PlanStep(cat, c, true).stmt.Table() in cat &&
    var step := Step(cat, db, PlanStep(cat, c, true).stmt, false, true);
    if Ready(cat, db, before, w, c) then step.Some? && step.value.0 == Redone(cat, db, w, c) else step.None?
  }

  lemma InsertStep(cat: Catalog, db: Db, before: Db, w: Write, c: Change)
    requires w.Ins? && Legal(cat, before, w) && Faithful(cat, before, w, c) && cat[w.table].Valid()
    ensures StepIs(cat, db, before, w, c)
  {
    var s := cat[w.table];
    SameStoredSameRow(s, c.newRow.value, w.row);
    TargetKey(s, w.row);
  }

  lemma DeleteStep(cat: Catalog, db: Db, before: Db, w: Write, c: Change)
    requires w.Del? && Legal(cat, before, w) && Faithful(cat, before, w, c)
    requires cat[w.id.table].Valid() && Keyed(cat[w.id.table], w.id, before[w.id])
    requires w.id in db ==> db[w.id].Keys == cat[w.id.table].Columns()
    ensures StepIs(cat, db, before, w, c)
  {
    var s, id := cat[w.id.table], w.id;
    assert s.Key(id.key) == id.key;
    assert PlanStep(cat, c, true) == Planned(DeleteStmt(id, Some(c.oldRow.value - s.derived)));
    if id in db {
      GuardIsShows(s, db[id], before[id], c.oldRow.value);
      assert c.oldRow.value.Keys * s.base == s.base;
    }
    hide PlanStep, Holds, Covers, Faithful, Legal;
    assert id !in db ==> db - {id} == db;
  }

  lemma UpdateStep(cat: Catalog, db: Db, before: Db, w: Write, c: Change)
    requires w.Upd? && Legal(cat, before, w) && Faithful(cat, before, w, c) && KeepsKey(cat, w)
    requires cat[w.id.table].Valid() && !NullInKey(w.id.key) && w.id.key.Keys == cat[w.id.table].pk
    requires w.id in db ==> Keyed(cat[w.id.table], w.id, db[w.id])
    ensures StepIs(cat, db, before, w, c)
  {
    hide Contains, Exec, PlanStep, Assign, Holds, Covers, NullInKey, Schema.ValidRow;
    var s, id, img := cat[w.id.table], w.id, c.newRow.value;
    ReplayUpdatePlan(cat, before, w, c);
    if id in db { GuardIsShows(s, db[id], before[id], c.oldRow.value); }
    KeyColumnsKept(cat, w, img);
    KeyStays(s.pk, id.key, img.Keys * s.Settable(), img);
    hide Legal, Schema.Valid, Keyed;
    UpdateHits(cat, db, id, id, img.Keys * s.Settable(), img, c.oldRow.value - s.derived);
    if id in db {
      var row := Assign(s, db[id], img.Keys * s.Settable(), img);
      assert (db - {id})[id := row] == db[id := row];
    }
  }

  lemma ReplayedStep(cat: Catalog, db: Db, before: Db, w: Write, c: Change)
    requires ValidDb(cat, db) && ValidDb(cat, before) && Legal(cat, before, w) && Faithful(cat, before, w, c) && KeepsKey(cat, w)
    ensures StepIs(cat, db, before, w, c)
    ensures Ready(cat, db, before, w, c) ==> ValidDb(cat, Redone(cat, db, w, c))
  {
    hide Ready, Redone, Faithful, StepIs, PlanStep, ValidDb, NullInKey;
    var id := Target(cat, w);
    R.CatalogIsValid(cat, before);
    if id in db { ValidRowIsKeyed(cat, db, id); }
    match w {
      case Ins(_, _) => InsertStep(cat, db, before, w, c);
      case Del(_) => ValidRowIsKeyed(cat, before, w.id); DeleteStep(cat, db, before, w, c);
      case Upd(_, _) =>
        ValidRowIsKeyed(cat, before, w.id);
        KeyNotNull(cat, before, w.id);
        UpdateStep(cat, db, before, w, c);
    }
    if Ready(cat, db, before, w, c) { RedoneIsValid(cat, db, before, w, c); }
  }

  lemma KeyNotNull(cat: Catalog, db: Db, id: RowId)
    requires ValidDb(cat, db) && id in db
    ensures !NullInKey(id.key)
  {
    assert id.key == cat[id.table].Key(db[id]);
  }

  lemma RedoneIsValid(cat: Catalog, db: Db, before: Db, w: Write, c: Change)
    requires w.Table() in cat && ValidDb(cat, db) && StepIs(cat, db, before, w, c) && Ready(cat, db, before, w, c)
    ensures ValidDb(cat, Redone(cat, db, w, c))
  {
    hide Ready, Redone, PlanStep, Exec, ValidDb;
    ExecKeepsValid(cat, db, PlanStep(cat, c, true).stmt);
  }

  // ---- A whole run -----------------------------------------------------------------------------

  /** The columns replay looks at before it writes them, of the row at a place. */
  ghost function Sought(cat: Catalog, es: seq<Entry>, id: RowId): set<string> {
    if es == [] || id.table !in cat then {}
    else if !Concerns(cat, es[0], id) then Sought(cat, es[1..], id)
    else match es[0].write
      case Ins(_, _) => {}
      case Del(_) => cat[id.table].base
      case Upd(_, _) => es[0].change.value.oldRow.GetOr(map[]).Keys * cat[id.table].base + Sought(cat, es[1..], id)
  }

  /** The oldest recorded change about a place. */
  ghost function Oldest(cat: Catalog, es: seq<Entry>, id: RowId): Option<Change> {
    if es == [] then None
    else if Concerns(cat, es[0], id) then es[0].change
    else Oldest(cat, es[1..], id)
  }

  /** At this place, `db` looks as the run found it in `start`; a row to be deleted first may be gone. */
  ghost predicate AsFound(cat: Catalog, db: Db, start: Db, es: seq<Entry>, id: RowId) {
    var c := Oldest(cat, es, id);
    c.Some? ==>
      (c.value.op == D && id !in db) ||
      ((id in db <==> id in start) && (id in start ==> id in db && Covers(db[id], start[id], Sought(cat, es, id))))
  }

  ghost predicate AllAsFound(cat: Catalog, db: Db, start: Db, es: seq<Entry>) {
    forall id :: AsFound(cat, db, start, es, id)
  }

  lemma {:induction false} SoughtIsStored(cat: Catalog, es: seq<Entry>, id: RowId)
    ensures id.table in cat ==> Sought(cat, es, id) <= cat[id.table].base
    ensures Oldest(cat, es, id).None? ==> Sought(cat, es, id) == {}
  {
    if es != [] { SoughtIsStored(cat, es[1..], id); }
  }

  lemma FoundElsewhere(cat: Catalog, start: Db, e: Entry, db: Db, rest: seq<Entry>, id: RowId)
    requires e.change.Some? && e.write.Table() in cat && KeepsKey(cat, e.write) && Target(cat, e.write) != id
    ensures AsFound(cat, db, start, [e] + rest, id) <==>
            AsFound(cat, Redone(cat, db, e.write, e.change.value), Written(cat, start, e.write), rest, id)
  {
    hide Assign;
    assert ([e] + rest)[1..] == rest && !Concerns(cat, e, id);
  }

  lemma FoundHere(cat: Catalog, start: Db, e: Entry, db: Db, rest: seq<Entry>)
    requires ValidDb(cat, start) && ValidDb(cat, db) && KeepsKey(cat, e.write)
    requires e.change.Some? && Legal(cat, start, e.write) && Faithful(cat, start, e.write, e.change.value)
    ensures var w, c, id := e.write, e.change.value, Target(cat, e.write);
            AsFound(cat, db, start, [e] + rest, id) <==>
            Ready(cat, db, start, w, c) && AsFound(cat, Redone(cat, db, w, c), Written(cat, start, w), rest, id)
  {
    hide AsFound, Ready, Redone, Faithful, Written;
    var w, id := e.write, Target(cat, e.write);
    assert ([e] + rest)[1..] == rest && Concerns(cat, e, id);
    match w
    case Ins(_, row) => FoundInserted(cat, start, e, db, rest);
    case Del(_) => FoundDeleted(cat, start, e, db, rest);
    case Upd(_, _) =>
      if id in db { ValidRowIsKeyed(cat, db, id); }
      IdIsKnown(cat, start, id);
      FoundUpdated(cat, start, e, db, rest);
  }

  lemma FoundDeleted(cat: Catalog, start: Db, e: Entry, db: Db, rest: seq<Entry>)
    requires e.write.Del? && e.change.Some? && Legal(cat, start, e.write) && Faithful(cat, start, e.write, e.change.value)
    requires ([e] + rest)[1..] == rest && Concerns(cat, e, Target(cat, e.write)) && e.write.Table() in cat
    ensures var w, c, id := e.write, e.change.value, Target(cat, e.write);
            AsFound(cat, db, start, [e] + rest, id) <==>
            Ready(cat, db, start, w, c) && AsFound(cat, Redone(cat, db, w, c), Written(cat, start, w), rest, id)
  {
    hide Covers;
  }

  lemma FoundInserted(cat: Catalog, start: Db, e: Entry, db: Db, rest: seq<Entry>)
    requires e.write.Ins? && e.change.Some? && Legal(cat, start, e.write) && Faithful(cat, start, e.write, e.change.value)
    requires ([e] + rest)[1..] == rest && Concerns(cat, e, Target(cat, e.write))
    ensures var w, c, id := e.write, e.change.value, Target(cat, e.write);
            AsFound(cat, db, start, [e] + rest, id) <==>
            Ready(cat, db, start, w, c) && AsFound(cat, Redone(cat, db, w, c), Written(cat, start, w), rest, id)
  {
    hide Schema.ValidRow;
    forall k { ContainsItself(Get(e.write.row, k)); }
  }

  lemma FoundUpdated(cat: Catalog, start: Db, e: Entry, db: Db, rest: seq<Entry>)
    requires e.write.Upd? && e.change.Some? && Legal(cat, start, e.write) && Faithful(cat, start, e.write, e.change.value)
    requires KeepsKey(cat, e.write) && cat[e.write.id.table].Valid()
    requires e.write.id in db ==> Keyed(cat[e.write.id.table], e.write.id, db[e.write.id])
    requires ([e] + rest)[1..] == rest && Concerns(cat, e, e.write.id)
    ensures var w, c, id := e.write, e.change.value, e.write.id;
            AsFound(cat, db, start, [e] + rest, id) <==>
            Ready(cat, db, start, w, c) && AsFound(cat, Redone(cat, db, w, c), Written(cat, start, w), rest, id)
  {
    var w, c, id := e.write, e.change.value, e.write.id;
    var s, img, more := cat[id.table], c.newRow.value, Sought(cat, rest, id);
    SoughtIsStored(cat, rest, id);
    assert Sought(cat, [e] + rest, id) == img.Keys * s.base + more;
    if id in db {
      CoversAfterAssign(s, db[id], start[id], w.row, id, img, more);
    }
    hide Assign, Sought, Covers, Faithful, Keyed, Schema.ValidRow, Schema.Valid;
  }

  lemma FoundStep(cat: Catalog, start: Db, e: Entry, db: Db, rest: seq<Entry>)
    requires ValidDb(cat, start) && ValidDb(cat, db) && KeepsKey(cat, e.write)
    requires e.change.Some? && Legal(cat, start, e.write) && Faithful(cat, start, e.write, e.change.value)
    ensures var w, c := e.write, e.change.value;
            AllAsFound(cat, db, start, [e] + rest) <==>
            Ready(cat, db, start, w, c) && AllAsFound(cat, Redone(cat, db, w, c), Written(cat, start, w), rest)
  {
    hide AsFound, Ready, Redone, Faithful, Written, ValidDb, Target;
    var w, c := e.write, e.change.value;
    FoundHere(cat, start, e, db, rest);
    forall id: RowId | id != Target(cat, w)
      ensures AsFound(cat, db, start, [e] + rest, id) <==> AsFound(cat, Redone(cat, db, w, c), Written(cat, start, w), rest, id)
    {
      FoundElsewhere(cat, start, e, db, rest, id);
    }
  }

  lemma FoundSame(cat: Catalog, start: Db, e: Entry, db: Db, rest: seq<Entry>)
    requires e.change.None?
    ensures AllAsFound(cat, db, start, [e] + rest) <==> AllAsFound(cat, db, start, rest)
  {
    hide Covers;
    assert ([e] + rest)[1..] == rest;
    forall id: RowId
      ensures AsFound(cat, db, start, [e] + rest, id) <==> AsFound(cat, db, start, rest, id)
    {
    }
  }

  /** Replaying a log replays its oldest change and then the rest. */
  lemma ReplayOldest(cat: Catalog, db: Db, c: Change, rest: seq<Change>)
    requires PlanStep(cat, c, true).Planned? && PlanStep(cat, c, true).stmt.Table() in cat
    requires PlanFor(cat, rest, true).Steps?
    ensures PlanFor(cat, [c] + rest, true).Steps?
    ensures var first := Step(cat, db, PlanStep(cat, c, true).stmt, false, true);
            Replayed(cat, db, [c] + rest, false).Done? <==> first.Some? && Replayed(cat, first.value.0, rest, false).Done?
  {
    hide Step, Apply, PlanStep, PlanFor;
    PlanFirst(cat, c, rest, true);
    ApplyFirst(cat, db, PlanStep(cat, c, true).stmt, PlanFor(cat, rest, true).stmts, false, true);
  }

  lemma KeepsKeysFirst(cat: Catalog, es: seq<Entry>)
    requires es != [] && KeepsKeys(cat, es)
    ensures KeepsKey(cat, es[0].write) && KeepsKeys(cat, es[1..])
  {
    assert forall i | 0 <= i < |es| - 1 :: es[1..][i] == es[i + 1];
  }

  lemma {:induction false} FoundIff(cat: Catalog, start: Db, es: seq<Entry>, now: Db)
    requires ValidDb(cat, start) && ValidDb(cat, now) && History(cat, start, es) && KeepsKeys(cat, es)
    ensures PlanFor(cat, Log(es), true).Steps?
    ensures Replayed(cat, now, Log(es), false).Done? <==> AllAsFound(cat, now, start, es)
    decreases |es|
  {
    if es == [] {
      NothingFound(cat, now, start);
    } else {
      hide ValidDb, History, Log, KeepsKeys, KeepsKey, PlanFor, Replayed, Recorded, Legal, Written, AllAsFound, Ready, Redone,
        Faithful, PlanStep, Step;
      var mid := FirstEntry(cat, start, es);
      var e, rest := es[0], es[1..];
      KeepsKeysFirst(cat, es);
      assert es == [e] + rest;
      if e.change.Some? {
        FirstRecorded(cat, start, e);
        var c := e.change.value;
        ReplayedStep(cat, now, start, e.write, c);
        FoundIff(cat, mid, rest, now);
        ReplayOldest(cat, now, c, Log(rest));
        FoundStep(cat, start, e, now, rest);
        if Ready(cat, now, start, e.write, c) { FoundIff(cat, mid, rest, Redone(cat, now, e.write, c)); }
      } else {
        UnrecordedIs(cat, start, e);
        assert [] + Log(rest) == Log(rest);
        FoundIff(cat, mid, rest, now);
        FoundSame(cat, start, e, now, rest);
      }
    }
  }

  lemma NothingFound(cat: Catalog, now: Db, start: Db)
    ensures Log([]) == [] && PlanFor(cat, [], true).Steps? && Replayed(cat, now, [], false).Done?
    ensures AllAsFound(cat, now, start, [])
  {
  }

  lemma FirstRecorded(cat: Catalog, db: Db, e: Entry)
    requires Extends(cat, db, e) && e.change.Some?
    ensures Legal(cat, db, e.write) && Faithful(cat, db, e.write, e.change.value) && e.write.Table() in cat
  {
  }

  lemma UnrecordedIs(cat: Catalog, db: Db, e: Entry)
    requires ValidDb(cat, db) && Extends(cat, db, e) && e.change.None?
    ensures e.write.Table() in cat && Written(cat, db, e.write) == db
  {
    UnrecordedChangesNothing(cat, db, e);
  }

  /**
   * Replaying a run goes through, without skips, exactly when no recorded update is one
   * that never replays, and every place the run wrote is occupied or free as it found it,
   * its row still showing the old values the run recorded -- or gone, if the run began by
   * deleting it.
   */
  lemma ReplaySucceedsIff(cat: Catalog, start: Db, es: seq<Entry>, now: Db)
    requires ValidDb(cat, start) && ValidDb(cat, now) && History(cat, start, es) && KeysTold(cat, es)
    ensures Replayed(cat, now, Log(es), false).Done? <==>
            !SomeNeverFinds(cat, es) && forall id :: AsFound(cat, now, start, es, id)
  {
    KeepingFinds(cat, start, es);
    hide ValidDb, History, Log, Replayed, AsFound, KeepsKey, NeverFinds;
    if SomeNeverFinds(cat, es) {
      KeyChangeRefusesReplay(cat, start, es, now);
    } else {
      assert KeepsKeys(cat, es);
      FoundIff(cat, start, es, now);
    }
  }

  /** An update that keeps its key is not one that never replays. */
  lemma {:induction false} KeepingFinds(cat: Catalog, start: Db, es: seq<Entry>)
    requires ValidDb(cat, start) && History(cat, start, es)
    ensures forall i | 0 <= i < |es| && KeepsKey(cat, es[i].write) :: !NeverFinds(cat, es[i].write)
  {
    forall i | 0 <= i < |es| && KeepsKey(cat, es[i].write)
      ensures !NeverFinds(cat, es[i].write)
    {
      if es[i].write.Upd? { forall k | k in es[i].write.id.key { ContainsItself(es[i].write.id.key[k]); } }
    }
  }

  // ---- The preview of a replay -----------------------------------------------------------------

  ghost predicate ReplayClear(cat: Catalog, db: Db, cs: seq<Change>) {
    forall i | 0 <= i < |cs| :: !Flagged(cat, db, cs, true, i)
  }

  /** What the oldest change of a place says about the tables the run began with. */
  ghost predicate Tells(cat: Catalog, start: Db, c: Change, id: RowId) {
    RowOf(c) == id && id.table in cat && c.op != T && Aimed(cat, c, true) &&
    if c.op == I then id !in start
    else id in start && c.oldRow.Some? && Agrees(cat[id.table], c.oldRow.value, start[id]) &&
         (c.op == D ==> cat[id.table].base <= c.oldRow.value.Keys)
  }

  lemma TellsNow(cat: Catalog, start: Db, w: Write, c: Change)
    requires ValidDb(cat, start) && Legal(cat, start, w) && Faithful(cat, start, w, c) && KeepsKey(cat, w)
    ensures Tells(cat, start, c, Target(cat, w))
  {
    hide PlanStep;
    FaithfulRow(cat, start, w, c);
    ChangeReplaysInPlace(cat, start, w, c);
    PlacedIsAimed(cat, c, RowOf(c));
  }

  lemma TellsEarlier(cat: Catalog, start: Db, e: Entry, c: Change, id: RowId)
    requires e.write.Table() in cat && KeepsKey(cat, e.write) && (e.change.Some? ==> Target(cat, e.write) != id)
    requires e.change.None? ==> Written(cat, start, e.write) == start
    requires Tells(cat, Written(cat, start, e.write), c, id)
    ensures Tells(cat, start, c, id)
  {
    hide Aimed, Agrees;
  }

  /** The changes of the log that are probed are the oldest ones of their places. */
  lemma {:induction false} OldestTells(cat: Catalog, start: Db, es: seq<Entry>, id: RowId)
    requires ValidDb(cat, start) && History(cat, start, es) && KeepsKeys(cat, es)
    ensures SaysOf(cat, start, Log(es), Oldest(cat, es, id), id)
    decreases |es|
  {
    if es == [] {
      assert Log(es) == [];
    } else {
      hide ValidDb, History, Log, KeepsKeys, Recorded, Legal, Written, SaysOf, Target, Faithful, KeepsKey;
      var mid := FirstEntry(cat, start, es);
      var e, rest := es[0], es[1..];
      KeepsKeysFirst(cat, es);
      OldestTells(cat, mid, rest, id);
      OldestMore(cat, start, e, mid, Log(rest), Oldest(cat, rest, id), id);
    }
  }

  ghost predicate ProbedAt(log: seq<Change>, i: nat, c: Change) {
    i < |log| && FirstSeen(log, i) && log[i] == c
  }

  ghost predicate SaysOf(cat: Catalog, start: Db, log: seq<Change>, c: Option<Change>, id: RowId) {
    if c.Some? then Tells(cat, start, c.value, id) && exists i :: ProbedAt(log, i, c.value)
    else forall i | 0 <= i < |log| :: RowOf(log[i]) != id
  }

  lemma OldestMore(cat: Catalog, start: Db, e: Entry, mid: Db, log: seq<Change>, c: Option<Change>, id: RowId)
    requires ValidDb(cat, start) && Extends(cat, start, e) && KeepsKey(cat, e.write) && mid == Written(cat, start, e.write)
    requires SaysOf(cat, mid, log, c, id)
    ensures SaysOf(cat, start, (if e.change.Some? then [e.change.value] else []) + log,
                   if Concerns(cat, e, id) then e.change else c, id)
  {
    hide Tells, Written, ValidDb;
    if e.change.None? {
      UnrecordedIs(cat, start, e);
      assert [] + log == log;
    } else {
      FirstRecorded(cat, start, e);
      FaithfulRow(cat, start, e.write, e.change.value);
      hide Extends, Faithful, Legal;
      if Concerns(cat, e, id) {
        TellsNow(cat, start, e.write, e.change.value);
        OldestFirst(cat, start, e.change.value, log, id);
      } else {
        assert Target(cat, e.write) != id;
        if c.Some? { TellsEarlier(cat, start, e, c.value, id); }
        OldestLater(cat, mid, start, e.change.value, log, c, id);
      }
    }
  }

  lemma OldestFirst(cat: Catalog, start: Db, c: Change, log: seq<Change>, id: RowId)
    requires Tells(cat, start, c, id)
    ensures SaysOf(cat, start, [c] + log, Some(c), id)
  {
    hide Tells;
    assert ProbedAt([c] + log, 0, c);
  }

  lemma OldestLater(cat: Catalog, mid: Db, start: Db, first: Change, log: seq<Change>, c: Option<Change>, id: RowId)
    requires RowOf(first) != id && SaysOf(cat, mid, log, c, id) && (c.Some? ==> Tells(cat, start, c.value, id))
    ensures SaysOf(cat, start, [first] + log, c, id)
  {
    hide Tells;
    if c.Some? {
      var i: nat :| ProbedAt(log, i, c.value);
      TellsRow(cat, start, c.value, id);
      var all := [first] + log;
      forall j | 0 <= j < i + 1 ensures RowOf(all[j]) != id { if j > 0 { assert all[j] == log[j - 1]; } }
      assert ProbedAt(all, i + 1, c.value);
    }
  }

  lemma TellsRow(cat: Catalog, start: Db, c: Change, id: RowId)
    requires Tells(cat, start, c, id)
    ensures RowOf(c) == id
  {
  }

  lemma {:induction false} SeenOnce(log: seq<Change>, i: nat, j: nat)
    requires i < |log| && j < |log| && FirstSeen(log, i) && FirstSeen(log, j) && RowOf(log[i]) == RowOf(log[j])
    ensures i == j
  {
  }

  /** A clear preview, place by place. */
  lemma ClearIsOldest(cat: Catalog, start: Db, es: seq<Entry>, now: Db)
    requires ValidDb(cat, start) && History(cat, start, es) && KeepsKeys(cat, es)
    ensures ReplayClear(cat, now, Log(es)) <==>
            forall id: RowId :: Oldest(cat, es, id).Some? ==> !Probe(cat, now, Oldest(cat, es, id).value, true)
  {
    hide ValidDb, History, KeepsKeys, Log, Oldest, Probe, Tells;
    var log := Log(es);
    forall id: RowId | Oldest(cat, es, id).Some?
      ensures exists i :: ProbedAt(log, i, Oldest(cat, es, id).value)
    {
      OldestTells(cat, start, es, id);
    }
    forall i: nat | i < |log| && FirstSeen(log, i)
      ensures Oldest(cat, es, RowOf(log[i])) == Some(log[i])
    {
      OldestTells(cat, start, es, RowOf(log[i]));
      var c := Oldest(cat, es, RowOf(log[i]));
      if c.Some? {
        var j: nat :| ProbedAt(log, j, c.value);
        TellsRow(cat, start, c.value, RowOf(log[i]));
        SeenOnce(log, i, j);
      }
    }
    if ReplayClear(cat, now, log) {
      forall id: RowId | Oldest(cat, es, id).Some?
        ensures !Probe(cat, now, Oldest(cat, es, id).value, true)
      {
        var i: nat :| ProbedAt(log, i, Oldest(cat, es, id).value);
        assert !Flagged(cat, now, log, true, i);
      }
    } else {
      var i: nat :| i < |log| && Flagged(cat, now, log, true, i);
      var id := RowOf(log[i]);
      assert Oldest(cat, es, id) == Some(log[i]) && Probe(cat, now, Oldest(cat, es, id).value, true);
    }
  }

  /** What a probe finds of the oldest change of a place. */
  lemma ProbeReads(cat: Catalog, now: Db, start: Db, c: Change, id: RowId)
    requires ValidDb(cat, now) && ValidDb(cat, start) && Tells(cat, start, c, id)
    ensures !Probe(cat, now, c, true) <==>
            if c.op == I then id !in now
            else id in now && Covers(now[id], start[id], c.oldRow.value.Keys * cat[id.table].base)
  {
    hide ValidDb, Aimed, Holds, Covers, Schema.Key, Agrees;
    AimedAt(cat, c, id);
    if c.op != I && id in now { GuardReads(cat, now, start, c.oldRow.value, id); }
  }

  lemma GuardReads(cat: Catalog, now: Db, start: Db, img: Row, id: RowId)
    requires ValidDb(cat, now) && id in now && id in start && id.table in cat && Agrees(cat[id.table], img, start[id])
    ensures Holds(now[id], img - cat[id.table].derived) <==> Covers(now[id], start[id], img.Keys * cat[id.table].base)
  {
    ValidRowIsKeyed(cat, now, id);
    IdIsKnown(cat, now, id);
    hide ValidDb;
    GuardIsShows(cat[id.table], now[id], start[id], img);
  }

  lemma AimedAt(cat: Catalog, c: Change, id: RowId)
    requires Aimed(cat, c, true) && RowOf(c) == id
    ensures c.table in cat && RowId(c.table, cat[c.table].Key(c.pk)) == id
  {
  }

  /** Of a place first written by an update, that update carries all a replay will look at; the key goes without saying. */
  ghost predicate OldestTellsAll(cat: Catalog, es: seq<Entry>) {
    forall id: RowId :: Oldest(cat, es, id).Some? ==> TellsAll(cat, es, id, Oldest(cat, es, id).value)
  }

  ghost predicate TellsAll(cat: Catalog, es: seq<Entry>, id: RowId, c: Change) {
    c.op == U && id.table in cat ==> Sought(cat, es, id) - cat[id.table].pk <= c.oldRow.GetOr(map[]).Keys
  }

  lemma UnflaggedIsFound(cat: Catalog, start: Db, es: seq<Entry>, now: Db, id: RowId)
    requires ValidDb(cat, start) && ValidDb(cat, now) && History(cat, start, es) && KeepsKeys(cat, es)
    requires var c := Oldest(cat, es, id); c.Some? ==> !Probe(cat, now, c.value, true) && TellsAll(cat, es, id, c.value)
    ensures AsFound(cat, now, start, es, id)
  {
    var c := Oldest(cat, es, id);
    if c.Some? {
      OldestTells(cat, start, es, id);
      TellsHere(cat, start, Log(es), c.value, id);
      ProbeReads(cat, now, start, c.value, id);
      SoughtIsStored(cat, es, id);
      if id in now { ValidRowIsKeyed(cat, now, id); }
      if id in start { ValidRowIsKeyed(cat, start, id); }
      hide ValidDb, History, KeepsKeys, Probe, Oldest, Sought;
      if id in start && id in now {
        forall k | k in Sought(cat, es, id)
          ensures Contains(Get(now[id], k), Get(start[id], k))
        {
          if k in cat[id.table].pk { ContainsItself(id.key[k]); }
        }
      }
    }
  }

  /**
   * A clear preview of a replay can be relied on, on all tables, exactly if every update
   * that is the oldest change of its place carries every column the later ones look at.
   */
  lemma ReplayPreviewReliableIff(cat: Catalog, start: Db, es: seq<Entry>)
    requires ValidDb(cat, start) && History(cat, start, es) && KeepsKeys(cat, es)
    ensures
      (forall now | ValidDb(cat, now) && ReplayClear(cat, now, Log(es)) :: Replayed(cat, now, Log(es), false).Done?) <==>
      OldestTellsAll(cat, es)
  {
    hide ValidDb, History, KeepsKeys, Log, ReplayClear, Replayed, Oldest, TellsAll, Probe, AsFound;
    if OldestTellsAll(cat, es) {
      forall now | ValidDb(cat, now) && ReplayClear(cat, now, Log(es))
        ensures Replayed(cat, now, Log(es), false).Done?
      {
        ClearIsOldest(cat, start, es, now);
        FoundIff(cat, start, es, now);
        forall id: RowId ensures AsFound(cat, now, start, es, id) { UnflaggedIsFound(cat, start, es, now, id); }
      }
    } else {
      var id: RowId :| Oldest(cat, es, id).Some? && !TellsAll(cat, es, id, Oldest(cat, es, id).value);
      var now := ReplayMisleads(cat, start, es, id);
    }
  }

  lemma AtStartUnflagged(cat: Catalog, start: Db, c: Change, id: RowId)
    requires ValidDb(cat, start) && Tells(cat, start, c, id)
    ensures !Probe(cat, start, c, true)
  {
    ProbeReads(cat, start, start, c, id);
    if id in start { forall k { ContainsItself(Get(start[id], k)); } }
  }

  /** Tables on which the replay preview is clear and the replay refuses: one column altered where no probe looks. */
  lemma ReplayMisleads(cat: Catalog, start: Db, es: seq<Entry>, id: RowId) returns (now: Db)
    requires ValidDb(cat, start) && History(cat, start, es) && KeepsKeys(cat, es)
    requires Oldest(cat, es, id).Some? && !TellsAll(cat, es, id, Oldest(cat, es, id).value)
    ensures ValidDb(cat, now) && ReplayClear(cat, now, Log(es)) && !Replayed(cat, now, Log(es), false).Done?
  {
    var c := Oldest(cat, es, id).value;
    var k :| k in Sought(cat, es, id) && k !in cat[id.table].pk && k !in c.oldRow.GetOr(map[]).Keys;
    SoughtIsStored(cat, es, id);
    OldestTells(cat, start, es, id);
    hide ValidDb, History, KeepsKeys, Log, Probe, Sought, Oldest, R.Altered, Replayed, ReplayClear, AsFound, SaysOf, Agrees, Aimed;
    TellsHere(cat, start, Log(es), c, id);
    R.AlteredIsValid(cat, start, id, k);
    now := start[id := R.Altered(cat[id.table], start[id], k)];
    ClearIsOldest(cat, start, es, now);
    forall x: RowId | Oldest(cat, es, x).Some?
      ensures !Probe(cat, now, Oldest(cat, es, x).value, true)
    {
      OldestTells(cat, start, es, x);
      TellsHere(cat, start, Log(es), Oldest(cat, es, x).value, x);
      UnseenAltered(cat, start, Oldest(cat, es, x).value, x, id, k);
    }
    FoundIff(cat, start, es, now);
    AlteredNotFound(cat, start, es, id, k);
  }

  lemma TellsHere(cat: Catalog, start: Db, log: seq<Change>, c: Change, id: RowId)
    requires SaysOf(cat, start, log, Some(c), id)
    ensures Tells(cat, start, c, id)
  {
  }

  lemma UnseenAltered(cat: Catalog, start: Db, c: Change, x: RowId, id: RowId, k: string)
    requires ValidDb(cat, start) && Tells(cat, start, c, x) && id in start && id.table in cat
    requires k in cat[id.table].base && k !in cat[id.table].pk && (x == id ==> c.op == U && k !in c.oldRow.GetOr(map[]).Keys)
    requires ValidDb(cat, start[id := R.Altered(cat[id.table], start[id], k)])
    ensures !Probe(cat, start[id := R.Altered(cat[id.table], start[id], k)], c, true)
  {
    var now := start[id := R.Altered(cat[id.table], start[id], k)];
    R.IdIsValid(cat, start, id);
    R.AlteredRow(cat[id.table], start[id], k);
    AtStartUnflagged(cat, start, c, x);
    ProbeReads(cat, start, start, c, x);
    ProbeReads(cat, now, start, c, x);
    hide ValidDb, Probe, Aimed, Agrees, R.Altered, Schema.ValidRow, Contains;
    if x == id {
      forall j | j in c.oldRow.value.Keys * cat[id.table].base
        ensures Contains(Get(now[id], j), Get(start[id], j))
      {
        assert j != k && Get(now[id], j) == Get(start[id], j);
        ContainsItself(Get(start[id], j));
      }
    }
  }

  lemma AlteredNotFound(cat: Catalog, start: Db, es: seq<Entry>, id: RowId, k: string)
    requires ValidDb(cat, start) && id in start && id.table in cat && Oldest(cat, es, id).Some?
    requires Oldest(cat, es, id).value.op == U && k in Sought(cat, es, id)
    requires k in cat[id.table].base && k !in cat[id.table].pk
    ensures !AsFound(cat, start[id := R.Altered(cat[id.table], start[id], k)], start, es, id)
  {
    R.IdIsValid(cat, start, id);
    R.AlteredRow(cat[id.table], start[id], k);
    hide ValidDb, Sought, Oldest, R.Altered, Contains, Schema.ValidRow;
  }

  ghost predicate NoOldestDelete(cat: Catalog, es: seq<Entry>) {
    forall id: RowId :: Oldest(cat, es, id).Some? ==> Oldest(cat, es, id).value.op != D
  }

  lemma FoundIsUnflagged(cat: Catalog, start: Db, es: seq<Entry>, now: Db, id: RowId)
    requires ValidDb(cat, start) && ValidDb(cat, now) && History(cat, start, es) && KeepsKeys(cat, es)
    requires AsFound(cat, now, start, es, id) && Oldest(cat, es, id).Some? && Oldest(cat, es, id).value.op != D
    ensures !Probe(cat, now, Oldest(cat, es, id).value, true)
  {
    hide Sought, Oldest, Probe, ValidDb, History, KeepsKeys, Log, SaysOf, Aimed, Agrees, Contains;
    OldestTells(cat, start, es, id);
    var c := Oldest(cat, es, id).value;
    TellsHere(cat, start, Log(es), c, id);
    ProbeReads(cat, now, start, c, id);
    if c.op == U { SoughtHasOldest(cat, start, es, id); }
  }

  lemma {:induction false} SoughtHasOldest(cat: Catalog, start: Db, es: seq<Entry>, id: RowId)
    requires ValidDb(cat, start) && History(cat, start, es)
    requires Oldest(cat, es, id).Some? && Oldest(cat, es, id).value.op == U && id.table in cat
    ensures Oldest(cat, es, id).value.oldRow.GetOr(map[]).Keys * cat[id.table].base <= Sought(cat, es, id)
    decreases |es|
  {
    hide ValidDb, History, Log, Recorded, Legal, Written, Faithful;
    var mid := FirstEntry(cat, start, es);
    if Concerns(cat, es[0], id) {
      FirstRecorded(cat, start, es[0]);
      R.FaithfulOp(cat, start, es[0].write, es[0].change.value);
    } else {
      SoughtHasOldest(cat, mid, es[1..], id);
    }
  }

  /** And every flag of a replay preview is a refusal, on all tables, exactly if no place is first written by a delete. */
  lemma ReplayFlagsAreRefusalsIff(cat: Catalog, start: Db, es: seq<Entry>)
    requires ValidDb(cat, start) && History(cat, start, es) && KeepsKeys(cat, es)
    ensures
      (forall now | ValidDb(cat, now) && Replayed(cat, now, Log(es), false).Done? :: ReplayClear(cat, now, Log(es))) <==>
      NoOldestDelete(cat, es)
  {
    hide ValidDb, History, KeepsKeys, Log, ReplayClear, Replayed, Oldest, Probe, AsFound;
    if NoOldestDelete(cat, es) {
      forall now | ValidDb(cat, now) && Replayed(cat, now, Log(es), false).Done?
        ensures ReplayClear(cat, now, Log(es))
      {
        ClearIsOldest(cat, start, es, now);
        FoundIff(cat, start, es, now);
        forall id: RowId | Oldest(cat, es, id).Some?
          ensures !Probe(cat, now, Oldest(cat, es, id).value, true)
        {
          FoundIsUnflagged(cat, start, es, now, id);
        }
      }
    } else {
      var id: RowId :| Oldest(cat, es, id).Some? && Oldest(cat, es, id).value.op == D;
      DeletedEarlier(cat, start, es, id);
    }
  }

  /** Without a row the run began by deleting, the replay goes through and its preview is flagged. */
  lemma DeletedEarlier(cat: Catalog, start: Db, es: seq<Entry>, id: RowId)
    requires ValidDb(cat, start) && History(cat, start, es) && KeepsKeys(cat, es)
    requires Oldest(cat, es, id).Some? && Oldest(cat, es, id).value.op == D
    ensures var now := start - {id};
            ValidDb(cat, now) && Replayed(cat, now, Log(es), false).Done? && !ReplayClear(cat, now, Log(es))
  {
    hide ValidDb, History, KeepsKeys, Log, Replayed, Probe, Oldest, ReplayClear, AsFound, SaysOf, Aimed, Agrees;
    var now := start - {id};
    RemoveKeepsValid(cat, start, id);
    FoundIff(cat, start, es, now);
    forall x: RowId ensures AsFound(cat, now, start, es, x) { FoundWithout(cat, start, es, x, id); }
    ClearIsOldest(cat, start, es, now);
    OldestTells(cat, start, es, id);
    TellsHere(cat, start, Log(es), Oldest(cat, es, id).value, id);
    ProbeReads(cat, now, start, Oldest(cat, es, id).value, id);
  }

  lemma FoundWithout(cat: Catalog, start: Db, es: seq<Entry>, x: RowId, id: RowId)
    requires Oldest(cat, es, id).Some? && Oldest(cat, es, id).value.op == D
    ensures AsFound(cat, start - {id}, start, es, x)
  {
    hide Oldest, Sought, Contains;
    if x in start && x != id { forall k ensures Contains(Get(start[x], k), Get(start[x], k)) { ContainsItself(Get(start[x], k)); } }
  }
}
