/** Restarts when the safety valve may open: row changes still come at most once. */
module Gaps {
  import opened Machine
  import opened Conserve
  import opened Restart
  import opened Redelivery

  /** A gap ends at the server's current position, which is past all it has published. */
  predicate GapCareful(w: World, a: Action) {
    && (a.StartStream? && w.proc.Some? ==> Confirms(w))
    && (a.OpenValve? ==> forall j | 0 <= j < |w.wal| :: w.wal[j].lsn <= a.hi)
  }

  ghost predicate GapRun(from: World, actions: seq<Action>, w: World)
    decreases |actions|
  {
    if actions == [] then w == from
    else
      var earlier, a := actions[..|actions| - 1], actions[|actions| - 1];
      exists mid :: GapRun(from, earlier, mid) && Can(mid, a) && GapCareful(mid, a) && w == Do(mid, a)
  }

  /** A line for a row change. */
  predicate RowRec(r: Rec, wal: seq<Event>) {
    r.Streamed? && IsRow(wal, r.pos)
  }

  predicate FromWal(r: Rec, wal: seq<Event>) {
    r.Streamed? ==> r.pos < |wal| && r.lsn == wal[r.pos].lsn
  }

  /** No line is below a row change's that stands before it, and row changes come in their order. */
  ghost predicate Rising(recs: seq<Rec>, wal: seq<Event>) {
    && (forall i | 0 <= i < |recs| :: FromWal(recs[i], wal))
    && (forall i, j | 0 <= i < j < |recs| && RowRec(recs[i], wal) ::
          recs[i].lsn <= recs[j].lsn && (RowRec(recs[j], wal) ==> recs[i].pos < recs[j].pos))
  }

  /** What is archived already and will be read again, the filter drops. */
  ghost predicate Filters(w: World) {
    w.Running() ==>
      var p := w.proc.value.phase;
      forall i | 0 <= i < |Written(w)| && RowRec(Written(w)[i], w.wal) && Written(w)[i].pos >= p.next ::
        p.skipTo != 0 && Written(w)[i].lsn <= p.skipTo
  }

  ghost predicate Orderly(w: World) {
    Rising(Written(w), w.wal) && Filters(w) && WalSane(w) &&
    (w.proc.Some? && w.proc.value.phase.Booting? ==> w.proc.value.cur == [])
  }

  lemma RisingSnoc(recs: seq<Rec>, wal: seq<Event>, r: Rec)
    requires Rising(recs, wal) && FromWal(r, wal)
    requires forall i | 0 <= i < |recs| && RowRec(recs[i], wal) ::
      recs[i].lsn <= r.lsn && (RowRec(r, wal) ==> recs[i].pos < r.pos)
    ensures Rising(recs + [r], wal)
  {
    hide FromWal, RowRec;
    var all := recs + [r];
    assert forall i | 0 <= i < |recs| :: all[i] == recs[i];
  }

  lemma RisingGrows(recs: seq<Rec>, wal: seq<Event>, ev: Event)
    requires Rising(recs, wal)
    ensures Rising(recs, wal + [ev])
  {
    var wal' := wal + [ev];
    forall i | 0 <= i < |recs| ensures FromWal(recs[i], wal') && (RowRec(recs[i], wal') <==> RowRec(recs[i], wal)) {
      assert FromWal(recs[i], wal);
    }
  }

  lemma OrderlyCommit(w: World, ev: Event)
    requires Orderly(w) && Can(w, Commit(ev))
    ensures Orderly(Do(w, Commit(ev)))
  {
    hide Recs, Rising;
    var w' := Do(w, Commit(ev));
    assert Written(w') == Written(w);
    RisingGrows(Written(w), w.wal, ev);
    if w.Running() { SameRows(Written(w), w.wal, ev); }
  }

  lemma SameRows(recs: seq<Rec>, wal: seq<Event>, ev: Event)
    requires Rising(recs, wal)
    ensures forall i | 0 <= i < |recs| :: RowRec(recs[i], wal + [ev]) <==> RowRec(recs[i], wal)
  {
    forall i | 0 <= i < |recs| ensures RowRec(recs[i], wal + [ev]) <==> RowRec(recs[i], wal) {
      assert FromWal(recs[i], wal);
    }
  }

  lemma OrderlyStart(w: World, pos: nat)
    requires Good(w) && Orderly(w) && Can(w, StartStream(pos)) && Confirms(w)
    ensures Orderly(Do(w, StartStream(pos)))
  {
    hide Good, Recs, Resume, Confirms;
    var w', recs := Do(w, StartStream(pos)), Recs(w.disk.manifest);
    NothingOpen(w);
    NothingOpen(w');
    ResumeWithin(w);
    forall i | 0 <= i < |recs| && RowRec(recs[i], w.wal)
      ensures Resume(w) != 0 && recs[i].lsn <= Resume(w)
    {
      assert FromWal(recs[i], w.wal);
      assert i < |recs| - 1 ==> recs[i].lsn <= recs[|recs| - 1].lsn;
    }
  }

  lemma OrderlyDeliver(w: World)
    requires Orderly(w) && Can(w, Deliver) && RowsIncrease(w.wal) && TruncatesLast(w.wal)
    ensures Orderly(Do(w, Deliver))
  {
    DeliverShape(w);
    hide Recs, Do, Can, TruncatesLast, Rising, Filters, RowsIncrease;
    var w', p := Do(w, Deliver), w.proc.value.phase;
    SameArchive(w, w');
    if Replayed(p, w.wal[p.next]) {
      assert Written(w') == Written(w) + [];
      Passed(w, Written(w));
    } else {
      DeliveredRises(w);
      Delivered(w, w');
    }
  }

  lemma Passed(w: World, recs: seq<Rec>)
    requires w.Running() && Filters(w) && recs == Written(w)
    ensures forall i | 0 <= i < |recs| && RowRec(recs[i], w.wal) && recs[i].pos >= w.proc.value.phase.next + 1 ::
      w.proc.value.phase.skipTo != 0 && recs[i].lsn <= w.proc.value.phase.skipTo
  {
  }

  lemma DeliveredRises(w: World)
    requires Orderly(w) && Can(w, Deliver) && RowsIncrease(w.wal) && TruncatesLast(w.wal)
    requires !Replayed(w.proc.value.phase, w.wal[w.proc.value.phase.next])
    ensures var n := w.proc.value.phase.next; Rising(Written(w) + [Streamed(n, w.wal[n].lsn)], w.wal)
  {
    hide Recs;
    var p, recs := w.proc.value.phase, Written(w);
    var r := Streamed(p.next, w.wal[p.next].lsn);
    hide Written;
    forall i | 0 <= i < |recs| && RowRec(recs[i], w.wal)
      ensures recs[i].lsn <= r.lsn && (RowRec(r, w.wal) ==> recs[i].pos < r.pos)
    {
      assert FromWal(recs[i], w.wal);
    }
    RisingSnoc(recs, w.wal, r);
  }

  lemma Delivered(w: World, w': World)
    requires w.Running() && w'.Running() && Filters(w) && w'.wal == w.wal && w.proc.value.phase.next < |w.wal|
    requires var n := w.proc.value.phase.next; Written(w') == Written(w) + [Streamed(n, w.wal[n].lsn)]
    requires w'.proc.value.phase == w.proc.value.phase.(next := w.proc.value.phase.next + 1)
    ensures Filters(w')
  {
    hide Recs;
    assert forall i | 0 <= i < |Written(w)| :: Written(w')[i] == Written(w)[i];
  }

  lemma OrderlyOpen(w: World, hi: nat)
    requires Orderly(w) && Can(w, OpenValve(hi)) && forall j | 0 <= j < |w.wal| :: w.wal[j].lsn <= hi
    ensures Orderly(Do(w, OpenValve(hi)))
  {
    hide Recs;
    var w', recs := Do(w, OpenValve(hi)), Written(w);
    var r := Gap(w.proc.value.phase.acked, hi);
    assert Written(w') == recs + [r];
    forall i | 0 <= i < |recs| && RowRec(recs[i], w.wal) ensures recs[i].lsn <= r.lsn {
      assert FromWal(recs[i], w.wal);
    }
    RisingSnoc(recs, w.wal, r);
    assert forall i | 0 <= i < |recs| :: Written(w')[i] == recs[i];
    hide Rising;
  }

  lemma OrderlyCrash(w: World)
    requires Orderly(w) && Can(w, Crash)
    ensures Orderly(Do(w, Crash))
  {
    hide Recs;
    var recs := Recs(w.disk.manifest);
    assert forall i | 0 <= i < |recs| :: recs[i] == Written(w)[i];
    assert Written(Do(w, Crash)) == recs;
  }

  lemma OrderlyFrame(w: World, w': World)
    requires Orderly(w) && w'.origin == w.origin && w'.wal == w.wal && Written(w') == Written(w)
    requires w'.proc.Some? && w'.proc.value.phase.Booting? ==> w'.proc.value.cur == []
    requires w'.Running() ==>
      w.Running() && w'.proc.value.phase == w.proc.value.phase.(acked := w'.proc.value.phase.acked, valve := w'.proc.value.phase.valve)
    ensures Orderly(w')
  {
    hide Written, Rising;
  }

  lemma OrderlyRotate(w: World)
    requires Good(w) && Orderly(w) && Can(w, Rotate)
    ensures Orderly(Do(w, Rotate))
  {
    hide Recs, Good, Orderly;
    RotateShape(w);
    assert Written(Do(w, Rotate)) == Written(w);
    hide Written;
    OrderlyFrame(w, Do(w, Rotate));
  }

  lemma OrderlyQuiet(w: World, a: Action)
    requires Good(w) && Orderly(w) && Can(w, a)
    requires a.Boot? || a.Upload? || a.UploadFails? || a.Mark? || a.PutManifest? || a.PutManifestFails? || a.Ack? || a.MoveSlot?
    ensures Orderly(Do(w, a))
  {
    hide Recs, Resume, DiskGood, BucketGood, Within, Rising, Filters;
    var w' := Do(w, a);
    RecsPrefix(w.disk.manifest, w'.disk.manifest);
    OrderlyFrame(w, w');
  }

  lemma OrderlyStep(w: World, a: Action)
    requires Good(w) && Orderly(w) && Can(w, a) && GapCareful(w, a)
    requires RowsIncrease(Do(w, a).wal) && TruncatesLast(Do(w, a).wal)
    ensures Orderly(Do(w, a))
  {
    hide Good, Orderly, Confirms;
    match a {
      case Commit(ev) => OrderlyCommit(w, ev);
      case StartStream(pos) => OrderlyStart(w, pos);
      case Deliver => OrderlyDeliver(w);
      case Rotate => OrderlyRotate(w);
      case OpenValve(hi) => OrderlyOpen(w, hi);
      case Crash => OrderlyCrash(w);
      case _ => OrderlyQuiet(w, a);
    }
  }

  lemma {:induction false} GapRunIsRun(from: World, actions: seq<Action>, w: World)
    requires GapRun(from, actions, w)
    ensures Runs(from, actions, w)
    decreases |actions|
  {
    hide Can, Do, GapCareful;
    if actions != [] {
      var earlier, a := actions[..|actions| - 1], actions[|actions| - 1];
      var mid :| GapRun(from, earlier, mid) && Can(mid, a) && GapCareful(mid, a) && w == Do(mid, a);
      GapRunIsRun(from, earlier, mid);
    }
  }

  lemma {:induction false} CarefulIsGapCareful(from: World, actions: seq<Action>, w: World)
    requires CarefulRun(from, actions, w)
    ensures GapRun(from, actions, w)
    decreases |actions|
  {
    hide Can, Do, Confirms;
    if actions != [] {
      var earlier, a := actions[..|actions| - 1], actions[|actions| - 1];
      var mid :| CarefulRun(from, earlier, mid) && Can(mid, a) && Careful(mid, a) && w == Do(mid, a);
      CarefulIsGapCareful(from, earlier, mid);
    }
  }

  lemma {:induction false} OrderlyAfter(remote: bool, origin: nat, actions: seq<Action>, w: World)
    requires GapRun(Start(remote, origin), actions, w) && RowsIncrease(w.wal) && TruncatesLast(w.wal)
    ensures Orderly(w)
    decreases |actions|
  {
    if actions != [] {
      hide Good, Orderly, Do, Can, GapCareful, RowsIncrease, TruncatesLast;
      var earlier, a := actions[..|actions| - 1], actions[|actions| - 1];
      var mid :| GapRun(Start(remote, origin), earlier, mid) && Can(mid, a) && GapCareful(mid, a) && w == Do(mid, a);
      OnlyCommitGrows(mid, a);
      FewerTruncates(mid.wal, w.wal);
      OrderlyAfter(remote, origin, earlier, mid);
      GapRunIsRun(Start(remote, origin), earlier, mid);
      GoodAfter(remote, origin, earlier, mid);
      OrderlyStep(mid, a);
    }
  }

  /**
   * With the valve free to open, a row change read is archived once or lies in a recorded
   * gap, and none is archived twice, exactly for the streams for which that holds without it.
   */
  lemma {:induction false} RowsComeOnceWithGapsIff(remote: bool, origin: nat, stream: seq<Event>)
    requires Publishable(origin, stream)
    ensures
      (forall actions, w | GapRun(Start(remote, origin), actions, w) && w.wal == stream :: RowsArchivedOnce(w)) <==>
      RowsIncrease(stream) && TruncatesLast(stream)
  {
    hide CarefulRun, GapRun, RowsIncrease, TruncatesLast, RowsArchivedOnce, Runs;
    if RowsIncrease(stream) && TruncatesLast(stream) {
      forall actions, w | GapRun(Start(remote, origin), actions, w) && w.wal == stream
        ensures RowsArchivedOnce(w)
      {
        OrderlyAfter(remote, origin, actions, w);
        GapRunIsRun(Start(remote, origin), actions, w);
        NothingIsLost(remote, origin, actions, w);
        RisingIsOnce(w);
      }
    } else {
      var actions, w := RowsGoWrong(remote, origin, stream);
      CarefulIsGapCareful(Start(remote, origin), actions, w);
    }
  }

  lemma RisingIsOnce(w: World)
    requires Orderly(w) && NothingDropped(w)
    ensures RowsArchivedOnce(w)
  {
    hide Recs, Written, NothingDropped;
  }
}
