/** When the flags of an undo preview say what the undo will do: both directions, key changes included. */
module Reliable {
  import opened Json
  import opened Tables
  import opened Statements
  import opened Capture
  import opened Plan
  import opened Inverse
  import opened Window
  import opened Conflicts
  import opened Preview

  // ---- What a run asks, read off its log -----------------------------------------------

  /** The place where undoing a change leaves its row; for an update, where the row came from. */
  function Back(cat: Catalog, c: Change): RowId {
    var p := PlanStep(cat, c, false);
    if p.Planned? && p.stmt.Table() in cat then Lands(cat, p.stmt) else RowOf(c)
  }

  lemma BackIs(cat: Catalog, before: Db, w: Write, c: Change)
    requires ValidDb(cat, before) && Legal(cat, before, w) && Faithful(cat, before, w, c)
    ensures Aimed(cat, c, false) && RowOf(c) == Target(cat, w)
    ensures Back(cat, c) == if w.Upd? then w.id else Target(cat, w)
  {
    FaithfulRow(cat, before, w, c);
    match w
    case Ins(_, _) => InsertBack(cat, before, w, c);
    case Del(_) => DeleteBack(cat, before, w, c);
    case Upd(_, _) => UpdateBack(cat, before, w, c);
  }

  lemma InsertBack(cat: Catalog, before: Db, w: Write, c: Change)
    requires w.Ins? && ValidDb(cat, before) && Legal(cat, before, w) && Faithful(cat, before, w, c)
    ensures Aimed(cat, c, false) && Back(cat, c) == Target(cat, w)
  {
    hide Schema.ValidRow;
    UndoStepInverts(cat, before, w, c);
    KeyOfKey(cat[w.table], w.row);
  }

  lemma DeleteBack(cat: Catalog, before: Db, w: Write, c: Change)
    requires w.Del? && ValidDb(cat, before) && Legal(cat, before, w) && Faithful(cat, before, w, c)
    ensures Aimed(cat, c, false) && Back(cat, c) == w.id
  {
    UndoStepInverts(cat, before, w, c);
    KeyOfKey(cat[w.id.table], before[w.id]);
    SameStoredSameRow(cat[w.id.table], c.oldRow.value, before[w.id]);
    hide Exec, Written, Schema.ValidRow;
  }

  lemma UpdateBack(cat: Catalog, before: Db, w: Write, c: Change)
    requires w.Upd? && ValidDb(cat, before) && Legal(cat, before, w) && Faithful(cat, before, w, c)
    ensures Aimed(cat, c, false) && Back(cat, c) == w.id
  {
    hide PlanStep, Schema.ValidRow;
    ValidRowIsKeyed(cat, before, w.id);
    KeyOfKey(cat[w.id.table], w.row);
    UndoUpdatePlan(cat, before, w, c);
    UndoLandsBack(cat, before, w, c);
    hide ValidDb, Faithful;
  }

  predicate Touches(cat: Catalog, log: seq<Change>, id: RowId) {
    exists i | 0 <= i < |log| :: RowOf(log[i]) == id || Back(cat, log[i]) == id
  }

  /** The stored columns that undoing a log looks at before overwriting them, of the row left at a place. */
  function Guarded(cat: Catalog, log: seq<Change>, id: RowId): set<string> {
    if log == [] || id.table !in cat then {}
    else
      var c, older := log[|log| - 1], log[..|log| - 1];
      if RowOf(c) == id then
        if c.op == U then c.newRow.GetOr(map[]).Keys * cat[id.table].base + Guarded(cat, older, Back(cat, c))
        else if c.op == I then cat[id.table].base
        else {}
      else if Back(cat, c) == id then {}
      else Guarded(cat, older, id)
  }

  /** At this place, `db` still looks as the run left it in `end`. */
  ghost predicate Matches(cat: Catalog, db: Db, end: Db, log: seq<Change>, id: RowId) {
    Touches(cat, log, id) ==>
      && (id in db <==> id in end)
      && (id in end ==> id in db && Covers(db[id], end[id], Guarded(cat, log, id)))
  }

  lemma TouchesSnoc(cat: Catalog, log: seq<Change>, c: Change, id: RowId)
    ensures Touches(cat, log + [c], id) <==> RowOf(c) == id || Back(cat, c) == id || Touches(cat, log, id)
    ensures (log + [c])[..|log|] == log
  {
    hide Back;
    var all := log + [c];
    if RowOf(c) == id || Back(cat, c) == id { assert all[|log|] == c; }
    if Touches(cat, log, id) {
      var i :| 0 <= i < |log| && (RowOf(log[i]) == id || Back(cat, log[i]) == id);
      assert all[i] == log[i];
    }
  }

  lemma FaithfulOp(cat: Catalog, before: Db, w: Write, c: Change)
    requires Legal(cat, before, w) && Faithful(cat, before, w, c)
    ensures RowOf(c) == Target(cat, w) && w.Table() in cat
    ensures c.op == if w.Ins? then I else if w.Del? then D else U
  {
  }

  ghost predicate ReadOff(cat: Catalog, es: seq<Entry>, log: seq<Change>, id: RowId) {
    (Concerned(cat, es, id) <==> Touches(cat, log, id)) && Checked(cat, es, id) == Guarded(cat, log, id)
  }

  lemma {:induction false} ReadOffLog(cat: Catalog, start: Db, es: seq<Entry>, id: RowId)
    requires ValidDb(cat, start) && History(cat, start, es)
    ensures ReadOff(cat, es, Log(es), id)
    decreases |es|
  {
    if es == [] {
      NothingTouched(cat, id);
    } else {
      hide Legal, Faithful, ValidDb, Written, Back, ReadOff;
      var mid := LastEntry(cat, start, es);
      var pre, e := es[..|es| - 1], es[|es| - 1];
      ReadOffLog(cat, start, pre, id);
      if e.change.Some? {
        if e.write.Upd? { ReadOffLog(cat, start, pre, e.write.id); }
        ReadOffMore(cat, mid, es, Log(pre), id);
      } else {
        ReadOffSame(cat, es, Log(pre), id);
      }
    }
  }

  lemma ReadOffSame(cat: Catalog, es: seq<Entry>, log: seq<Change>, id: RowId)
    requires es != [] && es[|es| - 1].change.None? && ReadOff(cat, es[..|es| - 1], log, id)
    ensures ReadOff(cat, es, log, id)
  {
    var pre, e := es[..|es| - 1], es[|es| - 1];
    assert Checked(cat, es, id) == Checked(cat, pre, id);
    ConcernedSnoc(cat, pre, e, id);
    assert es == pre + [e];
  }

  lemma ReadOffMore(cat: Catalog, mid: Db, es: seq<Entry>, older: seq<Change>, id: RowId)
    requires es != [] && es[|es| - 1].change.Some? && ReadOff(cat, es[..|es| - 1], older, id)
    requires var w := es[|es| - 1].write;
             && Legal(cat, mid, w) && Faithful(cat, mid, w, es[|es| - 1].change.value) && ValidDb(cat, mid)
             && (w.Upd? ==> ReadOff(cat, es[..|es| - 1], older, w.id))
    ensures ReadOff(cat, es, older + [es[|es| - 1].change.value], id)
  {
    hide Legal, Faithful, ValidDb, Back, Touches, Concerned, Aimed;
    var pre, e := es[..|es| - 1], es[|es| - 1];
    var c := e.change.value;
    FaithfulOp(cat, mid, e.write, c);
    BackIs(cat, mid, e.write, c);
    TouchesSnoc(cat, older, c, id);
    ConcernedSnoc(cat, pre, e, id);
    assert es == pre + [e];
  }

  /** `UndoSucceedsIff`, in terms of the log alone. */
  lemma {:induction false} UndoSucceedsByLog(cat: Catalog, start: Db, es: seq<Entry>, now: Db)
    requires ValidDb(cat, start) && ValidDb(cat, now) && History(cat, start, es)
    ensures Undo(cat, now, Log(es), false).Done? <==>
            forall id :: Matches(cat, now, End(cat, start, es), Log(es), id)
  {
    hide Undo, ValidDb, History, Concerned, Touches, Checked, Guarded, Covers;
    UndoSucceedsIff(cat, start, es, now);
    forall id
      ensures AsLeft(cat, now, End(cat, start, es), es, id) <==> Matches(cat, now, End(cat, start, es), Log(es), id)
    {
      ReadOffLog(cat, start, es, id);
    }
  }

  lemma {:induction false} LogIsAimed(cat: Catalog, start: Db, es: seq<Entry>)
    requires ValidDb(cat, start) && History(cat, start, es)
    ensures forall j | 0 <= j < |Log(es)| :: Aimed(cat, Log(es)[j], false)
    decreases |es|
  {
    if es != [] {
      hide ValidDb, Aimed, Legal, Faithful;
      var mid := LastEntry(cat, start, es);
      LogIsAimed(cat, start, es[..|es| - 1]);
      if es[|es| - 1].change.Some? { BackIs(cat, mid, es[|es| - 1].write, es[|es| - 1].change.value); }
    }
  }

  lemma {:induction false} NoMarkers(cat: Catalog, start: Db, es: seq<Entry>)
    requires History(cat, start, es)
    ensures forall i | 0 <= i < |Log(es)| :: Log(es)[i].op != T
    decreases |es|
  {
    if es != [] {
      var n := |es| - 1;
      NoMarkers(cat, start, es[..n]);
      if es[n].change.Some? { FaithfulOp(cat, End(cat, start, es[..n]), es[n].write, es[n].change.value); }
    }
  }

  // ---- The newest change of a place ------------------------------------------------------

  /** The last change logged under its key: in an undo, the first, and the only one probed. */
  predicate Newest(log: seq<Change>, i: nat) {
    i < |log| && forall j | i < j < |log| :: RowOf(log[j]) != RowOf(log[i])
  }

  /** A row was moved away from this place, and no later change is logged under its key. */
  predicate Abandoned(cat: Catalog, log: seq<Change>, id: RowId) {
    log != [] &&
    var c, older := log[|log| - 1], log[..|log| - 1];
    RowOf(c) != id && (Back(cat, c) == id || Abandoned(cat, older, id))
  }

  /** Every place, as the newest change logged under its key left it: as if moving a row left a copy. */
  ghost function Shown(cat: Catalog, start: Db, es: seq<Entry>): Db {
    if es == [] then start
    else
      var prev, e := Shown(cat, start, es[..|es| - 1]), es[|es| - 1];
      if e.change.None? || e.write.Table() !in cat then prev
      else if e.write.Del? then prev - {e.write.id}
      else prev[Target(cat, e.write) := e.write.row]
  }

  lemma {:induction false} ShownIsValid(cat: Catalog, start: Db, es: seq<Entry>)
    requires ValidDb(cat, start) && History(cat, start, es)
    ensures ValidDb(cat, Shown(cat, start, es))
    decreases |es|
  {
    if es != [] {
      hide ValidDb, Schema.ValidRow;
      var prev, e := Shown(cat, start, es[..|es| - 1]), es[|es| - 1];
      ShownIsValid(cat, start, es[..|es| - 1]);
      CatalogIsValid(cat, prev);
      if e.write.Del? { RemoveKeepsValid(cat, prev, e.write.id); }
      else { PutKeepsValid(cat, prev, Target(cat, e.write), e.write.row); }
    }
  }

  lemma CatalogIsValid(cat: Catalog, db: Db)
    requires ValidDb(cat, db)
    ensures ValidCatalog(cat)
  {
  }

  /** The row at `id` is as a change, the last one logged under this key, left it. */
  ghost predicate LeftBy(cat: Catalog, db: Db, c: Change, id: RowId) {
    if c.op == D then id !in db
    else
      && id in db && id.table in cat && c.newRow.Some? && Agrees(cat[id.table], c.newRow.value, db[id])
      && (c.op == I ==> cat[id.table].base <= c.newRow.value.Keys)
  }

  lemma {:induction false} NewestShown(cat: Catalog, start: Db, es: seq<Entry>, i: nat)
    requires ValidDb(cat, start) && History(cat, start, es) && Newest(Log(es), i)
    ensures LeftBy(cat, Shown(cat, start, es), Log(es)[i], RowOf(Log(es)[i]))
    decreases |es|
  {
    hide ValidDb, Legal, Faithful, LeftBy;
    var mid := LastEntry(cat, start, es);
    var pre, e := es[..|es| - 1], es[|es| - 1];
    if e.change.None? {
      NewestShown(cat, start, pre, i);
    } else if i == |Log(pre)| {
      LeftByLast(cat, mid, Shown(cat, start, pre), e.write, e.change.value);
    } else {
      assert Newest(Log(pre), i) by { assert forall j | 0 <= j < |Log(pre)| :: Log(pre)[j] == Log(es)[j]; }
      assert RowOf(Log(es)[|Log(pre)|]) != RowOf(Log(es)[i]);
      NewestShown(cat, start, pre, i);
      FaithfulOp(cat, mid, e.write, e.change.value);
      LeftByEarlier(cat, Shown(cat, start, pre), Shown(cat, start, es), Log(pre)[i], RowOf(Log(pre)[i]));
    }
  }

  lemma LeftByLast(cat: Catalog, before: Db, prev: Db, w: Write, c: Change)
    requires Legal(cat, before, w) && Faithful(cat, before, w, c)
    ensures LeftBy(cat, if w.Del? then prev - {w.id} else prev[Target(cat, w) := w.row], c, RowOf(c))
  {
    FaithfulRow(cat, before, w, c);
  }

  lemma LeftByEarlier(cat: Catalog, db: Db, db': Db, c: Change, id: RowId)
    requires LeftBy(cat, db, c, id) && SameRow(db, db', id)
    ensures LeftBy(cat, db', c, id)
  {
  }

  /** A place that was not abandoned is as shown; one that was is empty. */
  ghost predicate PlaceIs(cat: Catalog, shown: Db, end: Db, log: seq<Change>, id: RowId) {
    if Abandoned(cat, log, id) then id in shown && id !in end else SameRow(shown, end, id)
  }

  lemma {:induction false} PlaceAtEnd(cat: Catalog, start: Db, es: seq<Entry>, id: RowId)
    requires ValidDb(cat, start) && History(cat, start, es)
    ensures PlaceIs(cat, Shown(cat, start, es), End(cat, start, es), Log(es), id)
    decreases |es|
  {
    if es != [] {
      hide ValidDb, Faithful, Legal, Written, PlaceIs;
      var mid := LastEntry(cat, start, es);
      var pre, e := es[..|es| - 1], es[|es| - 1];
      PlaceAtEnd(cat, start, pre, id);
      if e.change.Some? { PlaceStep(cat, Shown(cat, start, pre), mid, e.write, e.change.value, Log(pre), id); }
    }
  }

  lemma PlaceStep(cat: Catalog, shown: Db, mid: Db, w: Write, c: Change, older: seq<Change>, id: RowId)
    requires ValidDb(cat, mid) && Legal(cat, mid, w) && Faithful(cat, mid, w, c) && PlaceIs(cat, shown, mid, older, id)
    ensures PlaceIs(cat, if w.Del? then shown - {w.id} else shown[Target(cat, w) := w.row], Written(cat, mid, w), older + [c], id)
  {
    hide Faithful, ValidDb, Back, Aimed, Schema.ValidRow;
    BackIs(cat, mid, w, c);
    assert (older + [c])[..|older|] == older;
  }

  lemma {:induction false} NewestOf(cat: Catalog, log: seq<Change>, id: RowId) returns (i: nat)
    requires Touches(cat, log, id) && !Abandoned(cat, log, id)
    ensures i < |log| && Newest(log, i) && RowOf(log[i]) == id
  {
    hide Back, Touches;
    var n := |log| - 1;
    if log == [] {
      NothingTouched(cat, id);
    } else {
      assert log == log[..n] + [log[n]];
      TouchesSnoc(cat, log[..n], log[n], id);
      if RowOf(log[n]) == id { i := n; } else { i := NewestOf(cat, log[..n], id); }
    }
  }

  lemma NothingTouched(cat: Catalog, id: RowId)
    ensures !Touches(cat, [], id)
  {
  }

  lemma {:induction false} AbandonedIf(cat: Catalog, log: seq<Change>, a: nat, b: nat)
    requires Newest(log, a) && a < b < |log| && Back(cat, log[b]) == RowOf(log[a])
    ensures Abandoned(cat, log, RowOf(log[a]))
  {
    hide Back;
    var n := |log| - 1;
    if b < n {
      assert forall j | 0 <= j < n :: log[..n][j] == log[j];
      AbandonedIf(cat, log[..n], a, b);
    }
  }

  lemma {:induction false} AbandonedBy(cat: Catalog, log: seq<Change>, id: RowId) returns (b: nat)
    requires Abandoned(cat, log, id)
    ensures b < |log| && Back(cat, log[b]) == id && forall j | b <= j < |log| :: RowOf(log[j]) != id
  {
    hide Back;
    var n := |log| - 1;
    if Back(cat, log[n]) == id { b := n; } else { b := AbandonedBy(cat, log[..n], id); }
  }

  // ---- A flag, and the undo that goes through all the same -----------------------------------

  ghost predicate Clear(cat: Catalog, db: Db, cs: seq<Change>) {
    forall i | 0 <= i < |cs| :: !Flagged(cat, db, cs, false, i)
  }

  /** The newest change of a place is the one an undo preview probes. */
  lemma NewestIsProbed(cat: Catalog, now: Db, log: seq<Change>, i: nat)
    requires i < |log|
    ensures Flagged(cat, now, Reverse(log), false, |log| - 1 - i) <==> Newest(log, i) && Probe(cat, now, log[i], false)
  {
    hide Probe, Reverse;
    var cs, r := Reverse(log), |log| - 1 - i;
    assert cs[r] == log[i];
    if Newest(log, i) {
      forall j | 0 <= j < r ensures RowOf(cs[j]) != RowOf(cs[r]) { assert cs[j] == log[|log| - 1 - j]; }
    } else {
      var j :| i < j < |log| && RowOf(log[j]) == RowOf(log[i]);
      assert cs[|log| - 1 - j] == log[j];
    }
  }

  lemma ClearIsNewest(cat: Catalog, now: Db, log: seq<Change>)
    ensures Clear(cat, now, Reverse(log)) <==>
            forall i | 0 <= i < |log| && Newest(log, i) :: !Probe(cat, now, log[i], false)
  {
    hide Flagged, Newest, Probe, Reverse;
    forall i | 0 <= i < |log|
      ensures Flagged(cat, now, Reverse(log), false, |log| - 1 - i) <==> Newest(log, i) && Probe(cat, now, log[i], false)
    {
      NewestIsProbed(cat, now, log, i);
    }
    if forall i | 0 <= i < |log| && Newest(log, i) :: !Probe(cat, now, log[i], false) {
      forall j | 0 <= j < |log|
        ensures !Flagged(cat, now, Reverse(log), false, j)
      {
        var i := |log| - 1 - j;
        NewestIsProbed(cat, now, log, i);
        assert |log| - 1 - i == j;
      }
    }
  }

  /** No row probed under its newest key was moved away from there after that change. */
  ghost predicate ProbedStay(cat: Catalog, log: seq<Change>) {
    forall a, b | 0 <= a < b < |log| && Newest(log, a) :: Back(cat, log[b]) != RowOf(log[a])
  }

  /** A logged change whose undo keeps off a place: the key it was logged under and the one before say so. */
  lemma LoggedStaysOff(cat: Catalog, c: Change, id: RowId)
    requires Aimed(cat, c, false) && RowOf(c) != id && Back(cat, c) != id
    ensures StaysOff(cat, c, false, id)
  {
  }

  /** One flag, in the undo of any selection of a run's changes. */
  lemma SelectionFlagRefuses(cat: Catalog, start: Db, es: seq<Entry>, cs: seq<Change>, now: Db, i: nat)
    requires ValidDb(cat, start) && History(cat, start, es) && ValidDb(cat, now)
    requires forall c | c in cs :: c in Log(es)
    requires i < |cs| && Flagged(cat, now, cs, false, i) && forall j | 0 <= j < i :: Back(cat, cs[j]) != RowOf(cs[i])
    ensures RunPlan(cat, now, cs, false, false).Refused?
  {
    hide Aimed, StaysOff, Probe, RunPlan, ValidDb, History, Log, Back;
    LogIsAimed(cat, start, es);
    assert cs[i] in Log(es);
    forall j | 0 <= j < i
      ensures StaysOff(cat, cs[j], false, RowOf(cs[i]))
    {
      assert cs[j] in Log(es);
      LoggedStaysOff(cat, cs[j], RowOf(cs[i]));
    }
    FlaggedMeansRefused(cat, now, cs, false, i);
  }

  lemma FlaggedRefusesUndo(cat: Catalog, start: Db, es: seq<Entry>, now: Db)
    requires ValidDb(cat, start) && ValidDb(cat, now) && History(cat, start, es) && ProbedStay(cat, Log(es))
    ensures Undo(cat, now, Log(es), false).Done? ==> Clear(cat, now, Reverse(Log(es)))
  {
    hide Probe, RunPlan, Log, ValidDb, History, Back, Newest, Flagged;
    var log, cs := Log(es), Reverse(Log(es));
    if !Clear(cat, now, cs) {
      var i: nat :| i < |cs| && Flagged(cat, now, cs, false, i);
      var a := |log| - 1 - i;
      NewestIsProbed(cat, now, log, a);
      forall j | 0 <= j < i
        ensures Back(cat, cs[j]) != RowOf(cs[i])
      {
        assert cs[j] == log[|log| - 1 - j];
      }
      forall c | c in cs ensures c in log { var j :| 0 <= j < |cs| && cs[j] == c; assert c == log[|log| - 1 - j]; }
      SelectionFlagRefuses(cat, start, es, cs, now, i);
    }
  }

  /** On the tables the run ended in the undo goes through; but a place its row left is flagged. */
  lemma FlagMisleads(cat: Catalog, start: Db, es: seq<Entry>, a: nat, b: nat)
    requires ValidDb(cat, start) && History(cat, start, es)
    requires Newest(Log(es), a) && a < b < |Log(es)| && Back(cat, Log(es)[b]) == RowOf(Log(es)[a])
    ensures var end := End(cat, start, es);
            ValidDb(cat, end) && Undo(cat, end, Log(es), false).Done? && !Clear(cat, end, Reverse(Log(es)))
  {
    hide Undo, ValidDb, History, Log, Abandoned, Back, Newest, Clear, Reverse, Clean;
    var end, log := End(cat, start, es), Log(es);
    EndIsValid(cat, start, es);
    UndoInvertsHistory(cat, start, es, false);
    CleanIsDone(Undo(cat, end, log, false));
    AbandonedIf(cat, log, a, b);
    PlaceAtEnd(cat, start, es, RowOf(log[a]));
    NewestShown(cat, start, es, a);
    LogIsAimed(cat, start, es);
    EmptyIsFlagged(cat, end, log[a]);
    ClearIsNewest(cat, end, log);
  }

  lemma EmptyIsFlagged(cat: Catalog, db: Db, c: Change)
    requires Aimed(cat, c, false) && c.op != D && RowOf(c) !in db
    ensures Probe(cat, db, c, false)
  {
  }

  /**
   * Every flag of an undo preview is a refusal, on all tables, exactly if no row that is
   * probed was moved to another key after the change probed: else the preview looks for
   * it under a key it no longer has, while the undo first moves it back.
   */
  lemma FlagsAreRefusalsIff(cat: Catalog, start: Db, es: seq<Entry>)
    requires ValidDb(cat, start) && History(cat, start, es)
    ensures
      (forall now | ValidDb(cat, now) && Undo(cat, now, Log(es), false).Done? :: Clear(cat, now, Reverse(Log(es)))) <==>
      ProbedStay(cat, Log(es))
  {
    hide ValidDb, History, Clear, Undo, Reverse, Newest, Back, Log;
    if ProbedStay(cat, Log(es)) {
      forall now | ValidDb(cat, now) && Undo(cat, now, Log(es), false).Done?
        ensures Clear(cat, now, Reverse(Log(es)))
      {
        FlaggedRefusesUndo(cat, start, es, now);
      }
    } else {
      var a: nat, b: nat :| a < b < |Log(es)| && Newest(Log(es), a) && Back(cat, Log(es)[b]) == RowOf(Log(es)[a]);
      FlagMisleads(cat, start, es, a, b);
    }
  }

  // ---- A clear preview, and an undo that is refused all the same -------------------------------

  /** No place was abandoned: each one a row was moved from was written again. */
  ghost predicate NoneAbandoned(cat: Catalog, log: seq<Change>) {
    forall id: RowId :: !Abandoned(cat, log, id)
  }

  lemma NoneAbandonedStay(cat: Catalog, log: seq<Change>)
    requires NoneAbandoned(cat, log)
    ensures ProbedStay(cat, log)
  {
    hide Abandoned, Back, Newest;
    forall a: nat, b: nat | a < b < |log| && Newest(log, a)
      ensures Back(cat, log[b]) != RowOf(log[a])
    {
      if Back(cat, log[b]) == RowOf(log[a]) { AbandonedIf(cat, log, a, b); }
    }
  }

  /** Of a place last written by an update, that update carries all an undo will look at; the key goes without saying. */
  ghost predicate NewestTellsAll(cat: Catalog, log: seq<Change>) {
    forall i | 0 <= i < |log| && Newest(log, i) && log[i].op == U && log[i].table in cat ::
      Guarded(cat, log, RowOf(log[i])) - cat[log[i].table].pk <= log[i].newRow.GetOr(map[]).Keys
  }

  /** A change whose probe finds no conflict shows the row as the change left it. */
  lemma ProbeFinds(cat: Catalog, now: Db, end: Db, c: Change)
    requires Aimed(cat, c, false) && c.op != T && !Probe(cat, now, c, false) && LeftBy(cat, end, c, RowOf(c))
    requires cat[c.table].Valid() && (RowOf(c) in now ==> now[RowOf(c)].Keys == cat[c.table].Columns())
    ensures RowOf(c) in now <==> RowOf(c) in end
    ensures c.op != D ==> Covers(now[RowOf(c)], end[RowOf(c)], c.newRow.value.Keys * cat[c.table].base)
  {
    if c.op != D {
      GuardIsShows(cat[c.table], now[RowOf(c)], end[RowOf(c)], c.newRow.value);
    }
  }

  /** And a row that is as the change left it is not flagged. */
  lemma LeftIsUnflagged(cat: Catalog, db: Db, c: Change)
    requires ValidDb(cat, db) && Aimed(cat, c, false) && LeftBy(cat, db, c, RowOf(c))
    ensures !Probe(cat, db, c, false)
  {
    if c.op != D {
      var s, row, img := cat[c.table], db[RowOf(c)], c.newRow.value;
      ValidRowIsKeyed(cat, db, RowOf(c));
      forall k | k in img - s.derived ensures k in row && row[k] == (img - s.derived)[k] {
        assert img[k] == Get(row, k);
      }
      HoldsAgreeing(row, img - s.derived);
    }
  }

  lemma {:induction false} GuardedIsStored(cat: Catalog, log: seq<Change>, id: RowId)
    requires forall i | 0 <= i < |log| :: Aimed(cat, log[i], false)
    ensures id.table in cat ==> Guarded(cat, log, id) <= cat[id.table].base
  {
    if log != [] {
      var n := |log| - 1;
      assert forall i | 0 <= i < n :: log[..n][i] == log[i];
      hide Aimed, Back;
      GuardedIsStored(cat, log[..n], id);
      BackTable(cat, log[n]);
      GuardedIsStored(cat, log[..n], Back(cat, log[n]));
    }
  }

  lemma BackTable(cat: Catalog, c: Change)
    requires Aimed(cat, c, false)
    ensures Back(cat, c).table == c.table
  {
  }

  lemma UnflaggedMatches(cat: Catalog, now: Db, end: Db, log: seq<Change>, i: nat)
    requires i < |log| && (forall j | 0 <= j < |log| :: Aimed(cat, log[j], false))
    requires log[i].op != T && LeftBy(cat, end, log[i], RowOf(log[i]))
    requires ValidDb(cat, now) && ValidDb(cat, end) && !Probe(cat, now, log[i], false)
    requires var c := log[i];
             c.op == U ==> Guarded(cat, log, RowOf(c)) - cat[c.table].pk <= c.newRow.GetOr(map[]).Keys
    ensures Matches(cat, now, end, log, RowOf(log[i]))
  {
    var c, id := log[i], RowOf(log[i]);
    if id in now { ValidRowIsKeyed(cat, now, id); }
    if id in end { ValidRowIsKeyed(cat, end, id); }
    GuardedIsStored(cat, log, id);
    hide ValidDb, Touches, Aimed, Guarded;
    AimedTable(cat, now, c);
    ProbeFinds(cat, now, end, c);
    if id in end {
      forall k | k in Guarded(cat, log, id)
        ensures Contains(Get(now[id], k), Get(end[id], k))
      {
        if k in cat[id.table].pk { ContainsItself(id.key[k]); }
      }
    }
  }

  lemma AimedTable(cat: Catalog, db: Db, c: Change)
    requires ValidDb(cat, db) && Aimed(cat, c, false)
    ensures c.table in cat && cat[c.table].Valid()
  {
  }

  lemma ClearMatches(cat: Catalog, start: Db, es: seq<Entry>, now: Db, id: RowId)
    requires ValidDb(cat, start) && ValidDb(cat, now) && History(cat, start, es)
    requires !Abandoned(cat, Log(es), id) && NewestTellsAll(cat, Log(es)) && Clear(cat, now, Reverse(Log(es)))
    ensures Matches(cat, now, End(cat, start, es), Log(es), id)
  {
    hide ValidDb, History, Aimed, Probe, LeftBy, Newest, Guarded, Clear, Touches, Abandoned, Log;
    var log, end := Log(es), End(cat, start, es);
    if Touches(cat, log, id) {
      var i := NewestOf(cat, log, id);
      LogIsAimed(cat, start, es);
      NoMarkers(cat, start, es);
      ClearIsNewest(cat, now, log);
      EndIsValid(cat, start, es);
      NewestShown(cat, start, es, i);
      PlaceAtEnd(cat, start, es, id);
      LeftByEarlier(cat, Shown(cat, start, es), end, log[i], id);
      AimedTable(cat, now, log[i]);
      UnflaggedMatches(cat, now, end, log, i);
    }
  }

  /**
   * Where no place is abandoned and the newest change of each tells all, probing only
   * that one is enough: no flag exactly when every step of the undo will apply.
   */
  lemma PreviewDecidesUndo(cat: Catalog, start: Db, es: seq<Entry>, now: Db)
    requires ValidDb(cat, start) && ValidDb(cat, now) && History(cat, start, es)
    requires NoneAbandoned(cat, Log(es)) && NewestTellsAll(cat, Log(es))
    ensures Undo(cat, now, Log(es), false).Done? <==> Clear(cat, now, Reverse(Log(es)))
  {
    hide Matches, Clear, Undo, Log, ValidDb, NewestTellsAll, History, ProbedStay, Abandoned;
    UndoSucceedsByLog(cat, start, es, now);
    NoneAbandonedStay(cat, Log(es));
    FlaggedRefusesUndo(cat, start, es, now);
    if Clear(cat, now, Reverse(Log(es))) {
      forall id ensures Matches(cat, now, End(cat, start, es), Log(es), id) {
        ClearMatches(cat, start, es, now, id);
      }
    }
  }

  // ---- And only there ------------------------------------------------------------------

  /** A value a guard on `v` does not accept. */
  function Other(v: Json): (o: Json)
    ensures !Contains(o, v)
  {
    if v == Null then Scalar("") else Null
  }

  /** The row with one ordinary column changed. */
  function Altered(s: Schema, row: Row, k: string): Row {
    s.Fill(row[k := Other(Get(row, k))])
  }

  lemma AlteredRow(s: Schema, row: Row, k: string)
    requires s.Valid() && s.ValidRow(row) && k in s.base && k !in s.pk
    ensures s.ValidRow(Altered(s, row, k)) && s.Key(Altered(s, row, k)) == s.Key(row)
    ensures forall c | c in s.base && c != k :: Get(Altered(s, row, k), c) == Get(row, c)
    ensures !Contains(Get(Altered(s, row, k), k), Get(row, k))
    ensures Altered(s, row, k).Keys == s.Columns()
  {
    var more := row[k := Other(Get(row, k))];
    FillKeepsStored(s, more);
    ValidRowKeys(s, row);
    assert s.Key(more) == s.Key(row);
    forall c | c in s.pk ensures Get(Altered(s, row, k), c) != Null {
      assert Altered(s, row, k)[c] == Get(more, c);
    }
    forall c | c in s.base ensures Get(Altered(s, row, k), c) == Get(more, c) {
      assert Altered(s, row, k)[c] == Get(more, c);
    }
  }

  lemma ProbeElsewhere(cat: Catalog, db: Db, c: Change, id: RowId, row: Row)
    requires Aimed(cat, c, false) && RowOf(c) != id
    ensures Probe(cat, db[id := row], c, false) == Probe(cat, db, c, false)
  {
  }

  lemma ProbeUpdate(cat: Catalog, db: Db, c: Change)
    requires Aimed(cat, c, false) && c.op == U
    ensures !Probe(cat, db, c, false) <==>
            RowOf(c) in db && (c.newRow.Some? ==> Holds(db[RowOf(c)], c.newRow.value - cat[c.table].derived))
  {
  }

  lemma AlteredUnseen(s: Schema, row: Row, k: string, img: Row)
    requires s.Valid() && s.ValidRow(row) && k in s.base && k !in s.pk && k !in img && Holds(row, img - s.derived)
    ensures Holds(Altered(s, row, k), img - s.derived)
  {
    var after := Altered(s, row, k);
    ValidRowKeys(s, row);
    AlteredRow(s, row, k);
    hide Altered;
    forall x | x in img - s.derived
      ensures x in after && Contains(after[x], (img - s.derived)[x])
    {
      assert x in row && x in s.base && x != k;
      assert Get(after, x) == Get(row, x);
    }
  }

  /** A column the newest change of its row does not carry can be changed unseen. */
  lemma UnseenByProbe(cat: Catalog, end: Db, c: Change, id: RowId, k: string, newest: Change)
    requires ValidDb(cat, end) && id in end && id.table in cat && k in cat[id.table].base && k !in cat[id.table].pk
    requires Aimed(cat, c, false) && Aimed(cat, newest, false) && newest.op == U && RowOf(newest) == id
    requires k !in newest.newRow.GetOr(map[]).Keys && (RowOf(c) == id ==> c == newest)
    requires !Probe(cat, end, c, false)
    ensures !Probe(cat, end[id := Altered(cat[id.table], end[id], k)], c, false)
  {
    var row := Altered(cat[id.table], end[id], k);
    IdIsValid(cat, end, id);
    hide Probe, Aimed, Altered, Holds, ValidDb;
    if RowOf(c) != id {
      ProbeElsewhere(cat, end, c, id, row);
    } else {
      ProbeUpdate(cat, end, c);
      ProbeUpdate(cat, end[id := row], c);
      if c.newRow.Some? { AlteredUnseen(cat[id.table], end[id], k, c.newRow.value); }
    }
  }

  lemma IdIsValid(cat: Catalog, db: Db, id: RowId)
    requires ValidDb(cat, db) && id in db
    ensures id.table in cat && cat[id.table].Valid() && cat[id.table].ValidRow(db[id]) && cat[id.table].Key(db[id]) == id.key
  {
  }

  lemma AlteredIsValid(cat: Catalog, end: Db, id: RowId, k: string)
    requires ValidDb(cat, end) && id in end && id.table in cat && k in cat[id.table].base && k !in cat[id.table].pk
    ensures ValidDb(cat, end[id := Altered(cat[id.table], end[id], k)])
  {
    IdIsValid(cat, end, id);
    AlteredRow(cat[id.table], end[id], k);
    hide Altered;
    PutKeepsValid(cat, end, id, Altered(cat[id.table], end[id], k));
  }

  /** Tables on which the preview is clear and the undo is refused all the same: one row altered where no probe looks. */
  lemma PreviewMisleads(cat: Catalog, start: Db, es: seq<Entry>, i: nat, k: string) returns (now: Db)
    requires ValidDb(cat, start) && History(cat, start, es) && NoneAbandoned(cat, Log(es))
    requires Newest(Log(es), i) && Log(es)[i].op == U && Log(es)[i].table in cat
    requires k in Guarded(cat, Log(es), RowOf(Log(es)[i])) && k !in cat[Log(es)[i].table].pk
    requires k !in Log(es)[i].newRow.GetOr(map[]).Keys
    ensures ValidDb(cat, now) && Clear(cat, now, Reverse(Log(es))) && Undo(cat, now, Log(es), false).Refused?
  {
    hide ValidDb, History, Aimed, Probe, Guarded, Clear, Undo, Altered, Reverse, Log, Back, ProbedStay, Abandoned, LeftBy, Clean;
    var log, end := Log(es), End(cat, start, es);
    var c, id := log[i], RowOf(log[i]);
    EndIsValid(cat, start, es);
    UndoInvertsHistory(cat, start, es, false);
    CleanIsDone(Undo(cat, end, log, false));
    NewestAtEnd(cat, start, es, i);
    LogIsAimed(cat, start, es);
    GuardedIsStored(cat, log, id);
    now := end[id := Altered(cat[id.table], end[id], k)];
    AlteredIsValid(cat, end, id, k);
    NoneAbandonedStay(cat, log);
    FlaggedRefusesUndo(cat, start, es, end);
    ClearIsNewest(cat, end, log);
    ClearIsNewest(cat, now, log);
    forall j | 0 <= j < |log| && Newest(log, j)
      ensures !Probe(cat, now, log[j], false)
    {
      assert RowOf(log[j]) == id ==> j == i;
      UnseenByProbe(cat, end, log[j], id, k, c);
    }
    AlteredBreaks(cat, end, log, i, k);
    UndoSucceedsByLog(cat, start, es, now);
  }

  lemma NewestAtEnd(cat: Catalog, start: Db, es: seq<Entry>, i: nat)
    requires ValidDb(cat, start) && History(cat, start, es) && NoneAbandoned(cat, Log(es))
    requires Newest(Log(es), i) && Log(es)[i].op == U
    ensures RowOf(Log(es)[i]) in End(cat, start, es)
  {
    hide Abandoned, ValidDb, History, Log;
    NewestShown(cat, start, es, i);
    PlaceAtEnd(cat, start, es, RowOf(Log(es)[i]));
  }

  lemma AlteredBreaks(cat: Catalog, end: Db, log: seq<Change>, i: nat, k: string)
    requires ValidDb(cat, end) && i < |log| && RowOf(log[i]) in end && RowOf(log[i]).table in cat
    requires k in Guarded(cat, log, RowOf(log[i])) && k in cat[log[i].table].base && k !in cat[log[i].table].pk
    ensures var id := RowOf(log[i]);
            !Matches(cat, end[id := Altered(cat[id.table], end[id], k)], end, log, id)
  {
    hide Guarded, Altered;
    var id := RowOf(log[i]);
    IdIsValid(cat, end, id);
    hide ValidDb;
    AlteredRow(cat[id.table], end[id], k);
    assert Touches(cat, log, id);
  }

  /** Or a row at an abandoned place, which the undo will want to move one back to. */
  lemma ShownMisleads(cat: Catalog, start: Db, es: seq<Entry>, id: RowId)
    requires ValidDb(cat, start) && History(cat, start, es) && Abandoned(cat, Log(es), id)
    ensures var now := Shown(cat, start, es);
            ValidDb(cat, now) && Clear(cat, now, Reverse(Log(es))) && Undo(cat, now, Log(es), false).Refused?
  {
    hide ValidDb, History, Aimed, Probe, Guarded, Clear, Undo, Reverse, Log, Back, LeftBy, Newest, Abandoned, Covers;
    var now, log := Shown(cat, start, es), Log(es);
    ShownIsValid(cat, start, es);
    LogIsAimed(cat, start, es);
    ClearIsNewest(cat, now, log);
    forall i | 0 <= i < |log| && Newest(log, i)
      ensures !Probe(cat, now, log[i], false)
    {
      NewestShown(cat, start, es, i);
      LeftIsUnflagged(cat, now, log[i]);
    }
    PlaceAtEnd(cat, start, es, id);
    var b := AbandonedBy(cat, log, id);
    assert Touches(cat, log, id);
    UndoSucceedsByLog(cat, start, es, now);
    assert !Matches(cat, now, End(cat, start, es), log, id);
  }

  /**
   * A clear preview can be relied on, on all tables, exactly if every place a row was
   * moved from was written again later, and, for every place last written by an update,
   * that update carries every column the older changes of its row guard.
   */
  lemma PreviewReliableIff(cat: Catalog, start: Db, es: seq<Entry>)
    requires ValidDb(cat, start) && History(cat, start, es)
    ensures
      (forall now | ValidDb(cat, now) && Clear(cat, now, Reverse(Log(es))) :: Undo(cat, now, Log(es), false).Done?) <==>
      NoneAbandoned(cat, Log(es)) && NewestTellsAll(cat, Log(es))
  {
    hide ValidDb, History, Clear, Undo, Reverse, Guarded, Newest, Abandoned, Log, NewestTellsAll;
    if !NoneAbandoned(cat, Log(es)) {
      var id: RowId :| Abandoned(cat, Log(es), id);
      ShownMisleads(cat, start, es, id);
    } else if NewestTellsAll(cat, Log(es)) {
      forall now | ValidDb(cat, now) && Clear(cat, now, Reverse(Log(es)))
        ensures Undo(cat, now, Log(es), false).Done?
      {
        PreviewDecidesUndo(cat, start, es, now);
      }
    } else {
      var i, k := Untold(cat, Log(es));
      var now := PreviewMisleads(cat, start, es, i, k);
    }
  }

  lemma Untold(cat: Catalog, log: seq<Change>) returns (i: nat, k: string)
    requires !NewestTellsAll(cat, log)
    ensures i < |log| && Newest(log, i) && log[i].op == U && log[i].table in cat
    ensures k in Guarded(cat, log, RowOf(log[i])) && k !in cat[log[i].table].pk
    ensures k !in log[i].newRow.GetOr(map[]).Keys
  {
    hide Guarded, Newest;
    i :| 0 <= i < |log| && Newest(log, i) && log[i].op == U && log[i].table in cat &&
         !(Guarded(cat, log, RowOf(log[i])) - cat[log[i].table].pk <= log[i].newRow.GetOr(map[]).Keys);
    k :| k in Guarded(cat, log, RowOf(log[i])) - cat[log[i].table].pk && k !in log[i].newRow.GetOr(map[]).Keys;
  }
}
