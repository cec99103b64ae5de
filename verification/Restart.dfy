/** When the archive is exactly a prefix of the stream, whatever is killed and resent. */
module Restart {
  import opened Machine
  import opened Conserve

  /** The bucket, if there is one, is known to hold the whole archive. */
  predicate Confirms(w: World)
    requires w.proc.Some?
  {
    w.remote ==> FirstPending(w.proc.value.segs) == |w.proc.value.segs| == w.proc.value.manifestSeq
  }

  /** The valve stays shut, and a start-up push succeeds before streaming begins. */
  predicate Careful(w: World, a: Action) {
    !a.OpenValve? && (a.StartStream? && w.proc.Some? ==> Confirms(w))
  }

  ghost predicate CarefulRun(from: World, actions: seq<Action>, w: World)
    decreases |actions|
  {
    if actions == [] then w == from
    else
      var earlier, a := actions[..|actions| - 1], actions[|actions| - 1];
      exists mid :: CarefulRun(from, earlier, mid) && Can(mid, a) && Careful(mid, a) && w == Do(mid, a)
  }

  /** One line for each change, in order, none twice. */
  predicate IsStream(recs: seq<Rec>, wal: seq<Event>) {
    |recs| <= |wal| && forall i | 0 <= i < |recs| :: recs[i] == Streamed(i, wal[i].lsn)
  }

  /** The archive is a prefix of the stream, and reaches as far as the process has read. */
  predicate Exact(w: World) {
    IsStream(Written(w), w.wal) && (w.Running() ==> w.proc.value.phase.next <= |Written(w)|)
  }

  predicate NoTruncates(wal: seq<Event>) {
    forall i | 0 <= i < |wal| :: wal[i].Filtered()
  }

  predicate IsRow(wal: seq<Event>, j: int) {
    0 <= j < |wal| && wal[j].Filtered()
  }

  /** Truncates come after every row change, and none is below one in LSN. */
  ghost predicate TruncatesLast(wal: seq<Event>) {
    forall j, k | IsRow(wal, j) && 0 <= k < |wal| && !wal[k].Filtered() :: j < k && wal[j].lsn <= wal[k].lsn
  }

  /** A first line for each row change, in order; every other line is a truncate's. */
  predicate RowsOnce(recs: seq<Rec>, wal: seq<Event>) {
    forall i | 0 <= i < |recs| ::
      && recs[i].Streamed? && recs[i].pos < |wal| && recs[i].lsn == wal[recs[i].pos].lsn
      && if IsRow(wal, i) then recs[i].pos == i else !wal[recs[i].pos].Filtered()
  }

  ghost predicate RowsExact(w: World) {
    RowsOnce(Written(w), w.wal) &&
    (w.Running() ==> forall j | j < w.proc.value.phase.next && IsRow(w.wal, j) :: j < |Written(w)|)
  }

  // ---- The invariant ---------------------------------------------------------

  /** No further than what is sealed. */
  predicate UpTo(w: World, x: nat) {
    var recs := Recs(w.disk.manifest);
    x <= w.origin || exists i | 0 <= i < |recs| :: x <= recs[i].lsn
  }

  predicate WalSane(w: World) {
    forall j | 0 <= j < |w.wal| :: w.origin < w.wal[j].lsn < w.wal[j].commit
  }

  /** Of the row changes, the filter drops just those archived already and still to be read again. */
  ghost predicate FilterExact(w: World) {
    w.Running() ==>
      var p, n := w.proc.value.phase, |Written(w)|;
      p.next <= |w.wal| &&
      (forall j | p.next <= j < n && IsRow(w.wal, j) :: p.skipTo != 0 && w.wal[j].lsn <= p.skipTo) &&
      (forall j | n <= j && IsRow(w.wal, j) :: w.wal[j].lsn > p.skipTo) &&
      UpTo(w, p.skipTo) && UpTo(w, p.acked) && p.valve.Idle?
  }

  ghost predicate Precise(w: World) {
    RowsExact(w) && WalSane(w) && FilterExact(w) && UpTo(w, w.slot) &&
    (w.proc.Some? && w.proc.value.phase.Booting? ==> w.proc.value.cur == [])
  }

  lemma {:induction false} EndIsLast(m: Manifest, n: nat)
    requires 0 < n <= |m| && m[n - 1].recs != []
    ensures Recs(m[..n]) != [] && Recs(m[..n])[|Recs(m[..n])| - 1].lsn == m[n - 1].EndLsn()
    ensures Recs(m[..n]) <= Recs(m)
  {
    RecsPrefix(m[..n], m);
    assert m[..n][..n - 1] == m[..n - 1];
  }

  lemma {:induction false} EndUpTo(w: World, n: nat)
    requires var m := w.disk.manifest; 0 < n <= |m| && m[n - 1].recs != []
    ensures UpTo(w, w.disk.manifest[n - 1].EndLsn())
    ensures var m, recs := w.disk.manifest, Recs(w.disk.manifest);
      n == |m| ==> recs != [] && m[n - 1].EndLsn() == recs[|recs| - 1].lsn
  {
    hide Recs;
    var m := w.disk.manifest;
    EndIsLast(m, n);
    var part := Recs(m[..n]);
    assert Recs(m)[|part| - 1] == part[|part| - 1];
    if n == |m| { assert m[..n] == m; }
  }

  lemma NoSegments()
    ensures Recs([]) == []
  {
  }

  /** `ResumeLSN` is never past the sealed part, and is its end once all is confirmed. */
  lemma {:induction false} ResumeWithin(w: World)
    requires Good(w) && w.proc.Some?
    ensures UpTo(w, Resume(w))
    ensures var recs := Recs(w.disk.manifest); Confirms(w) && recs != [] ==> Resume(w) == recs[|recs| - 1].lsn
  {
    hide BucketGood, Recs, UploadedFirst, UploadedStored, Stored, MarksWithin;
    var p, m := w.proc.value, w.disk.manifest;
    var n := if w.remote then Confirmed(p.segs, p.manifestSeq) else |p.segs|;
    if n > 0 {
      assert p.segs[n - 1].recs == m[n - 1].recs;
      EndUpTo(w, n);
    }
    if Confirms(w) {
      if w.remote { ConfirmedAll(p.segs); }
      NoSegments();
    }
  }

  lemma {:induction false} ConfirmedAll(segs: Manifest)
    requires FirstPending(segs) == |segs|
    ensures Confirmed(segs, |segs|) == |segs|
  {
    ConfirmedUpTo(segs, |segs|);
  }

  lemma {:induction false} ConfirmedUpTo(segs: Manifest, seen: nat)
    requires |segs| <= seen && forall i | 0 <= i < |segs| :: segs[i].uploaded
    ensures Confirmed(segs, seen) == |segs|
    decreases |segs|
  {
    if segs != [] {
      ConfirmedUpTo(segs[..|segs| - 1], seen);
    }
  }

  /** A row change not sealed yet is beyond what is sealed. */
  lemma {:induction false} BeyondSealed(w: World, wal: seq<Event>, x: nat, j: nat)
    requires RowsOnce(Written(w), w.wal) && w.wal <= wal && RowsIncrease(wal) && TruncatesLast(wal)
    requires UpTo(w, x) && |Recs(w.disk.manifest)| <= j && IsRow(wal, j) && wal[j].lsn > w.origin
    ensures x < wal[j].lsn
  {
    hide Recs;
    var recs := Recs(w.disk.manifest);
    if x > w.origin {
      var i :| 0 <= i < |recs| && x <= recs[i].lsn;
      assert Written(w)[i] == recs[i];
    }
  }

  lemma SameArchive(w: World, w': World)
    requires w'.origin == w.origin && w'.disk.manifest == w.disk.manifest
    ensures forall x: nat :: UpTo(w', x) == UpTo(w, x)
    ensures w.proc.Some? && w'.proc.Some? ==>
      forall more | w'.proc.value.cur == w.proc.value.cur + more :: Written(w') == Written(w) + more
    ensures (if w.proc.Some? then w.proc.value.cur else []) == (if w'.proc.Some? then w'.proc.value.cur else []) ==>
      Written(w') == Written(w)
  {
    hide Recs;
    if w.proc.Some? && w'.proc.Some? {
      forall more | w'.proc.value.cur == w.proc.value.cur + more
        ensures Written(w') == Written(w) + more
      {
      }
    }
  }

  lemma SealedFirst(w: World)
    ensures |Recs(w.disk.manifest)| <= |Written(w)|
  {
  }

  /** A row change just committed is not archived: what is archived are row changes before it. */
  lemma NotPast(recs: seq<Rec>, wal: seq<Event>, ev: Event, i: nat)
    requires RowsOnce(recs, wal) && TruncatesLast(wal + [ev]) && ev.Filtered() && i < |recs|
    ensures i < |wal|
  {
    var p, wal' := recs[i].pos, wal + [ev];
    assert p < |wal| && wal'[p] == wal[p] && IsRow(wal', |wal|);
  }

  lemma NotYet(recs: seq<Rec>, wal: seq<Event>, ev: Event)
    requires RowsOnce(recs, wal) && TruncatesLast(wal + [ev]) && ev.Filtered()
    ensures |recs| <= |wal|
  {
    if |recs| > |wal| { NotPast(recs, wal, ev, |wal|); }
  }

  lemma StillOnce(recs: seq<Rec>, wal: seq<Event>, ev: Event)
    requires RowsOnce(recs, wal) && TruncatesLast(wal + [ev])
    ensures RowsOnce(recs, wal + [ev])
  {
    if ev.Filtered() { NotYet(recs, wal, ev); }
    hide TruncatesLast;
  }

  lemma {:induction false} PreciseCommit(w: World, ev: Event)
    requires Precise(w) && Can(w, Commit(ev)) && RowsIncrease(w.wal + [ev]) && TruncatesLast(w.wal + [ev])
    ensures Precise(Do(w, Commit(ev)))
  {
    hide Recs, RowsIncrease, RowsOnce, Written, UpTo, TruncatesLast;
    var w' := Do(w, Commit(ev));
    SameArchive(w, w');
    StillOnce(Written(w), w.wal, ev);
    SealedFirst(w);
    assert forall j | 0 <= j < |w.wal| :: w'.wal[j] == w.wal[j];
    if w.Running() && ev.Filtered() {
      NotYet(Written(w), w.wal, ev);
      BeyondSealed(w, w'.wal, w.proc.value.phase.skipTo, |w.wal|);
    }
  }

  lemma SealedWithin(w: World, j: nat)
    requires RowsOnce(Written(w), w.wal) && RowsIncrease(w.wal) && TruncatesLast(w.wal) && IsRow(w.wal, j)
    requires j < |Recs(w.disk.manifest)|
    ensures var recs := Recs(w.disk.manifest); w.wal[j].lsn <= recs[|recs| - 1].lsn
  {
    hide Recs;
    var recs := Recs(w.disk.manifest);
    var last := |recs| - 1;
    assert Written(w)[last] == recs[last];
    if IsRow(w.wal, last) && j < last { assert w.wal[j].lsn < w.wal[last].lsn; }
  }

  /** With everything confirmed, the row changes sealed are those up to the end of the sealed part. */
  lemma {:induction false} SealedBounds(w: World, x: nat, j: nat)
    requires RowsOnce(Written(w), w.wal) && RowsIncrease(w.wal) && TruncatesLast(w.wal) && WalSane(w) && IsRow(w.wal, j)
    requires var recs := Recs(w.disk.manifest); UpTo(w, x) && (recs != [] ==> x == recs[|recs| - 1].lsn)
    ensures j < |Recs(w.disk.manifest)| <==> w.wal[j].lsn <= x
  {
    hide Recs, RowsOnce, RowsIncrease, TruncatesLast, UpTo, Written;
    if j < |Recs(w.disk.manifest)| { SealedWithin(w, j); } else { BeyondSealed(w, w.wal, x, j); }
  }

  lemma {:induction false} PreciseStart(w: World, pos: nat)
    requires Good(w) && Precise(w) && Can(w, StartStream(pos)) && Confirms(w)
    requires RowsIncrease(w.wal) && TruncatesLast(w.wal)
    ensures Precise(Do(w, StartStream(pos)))
  {
    hide Good, Recs, Resume, Confirms, RowsIncrease, TruncatesLast, RowsOnce, Written, UpTo;
    var w', r := Do(w, StartStream(pos)), Resume(w);
    var recs := Recs(w.disk.manifest);
    SameArchive(w, w');
    NothingOpen(w);
    ResumeWithin(w);
    forall j | IsRow(w.wal, j)
      ensures j < |recs| <==> w.wal[j].lsn <= r
      ensures j >= |recs| ==> w.wal[j].commit > Max(w.slot, r)
    {
      SealedBounds(w, r, j);
      if j >= |recs| { BeyondSealed(w, w.wal, w.slot, j); }
    }
  }

  lemma NothingOpen(w: World)
    requires w.proc.Some? && w.proc.value.cur == []
    ensures Written(w) == Recs(w.disk.manifest)
  {
  }

  lemma {:induction false} DeliverShape(w: World)
    requires Can(w, Deliver)
    ensures var w', p := Do(w, Deliver), w.proc.value.phase;
      w'.origin == w.origin && w'.wal == w.wal && w'.slot == w.slot && w'.disk.manifest == w.disk.manifest &&
      w'.remote == w.remote && w'.bucket == w.bucket &&
      w'.Running() && w'.proc.value.phase == p.(next := p.next + 1) &&
      w'.proc.value.segs == w.proc.value.segs && w'.proc.value.manifestSeq == w.proc.value.manifestSeq &&
      w'.proc.value.cur == w.proc.value.cur +
        if Replayed(p, w.wal[p.next]) then [] else [Streamed(p.next, w.wal[p.next].lsn)]
  {
  }

  /** The next change, if it is archived, is a truncate or the next row change. */
  lemma OneMore(recs: seq<Rec>, wal: seq<Event>, next: nat)
    requires RowsOnce(recs, wal) && TruncatesLast(wal) && next < |wal|
    requires forall j | j < next && IsRow(wal, j) :: j < |recs|
    requires IsRow(wal, next) ==> |recs| <= next
    ensures RowsOnce(recs + [Streamed(next, wal[next].lsn)], wal)
    ensures if IsRow(wal, next) then |recs| == next else forall j | IsRow(wal, j) :: j < next
  {
    var n, recs' := |recs|, recs + [Streamed(next, wal[next].lsn)];
    if IsRow(wal, next) {
      assert n < next ==> IsRow(wal, n);
      assert n == next;
    } else {
      assert !IsRow(wal, n);
    }
    assert forall i | 0 <= i < n :: recs'[i] == recs[i];
  }

  lemma {:induction false} PreciseDeliver(w: World)
    requires Precise(w) && Can(w, Deliver) && RowsIncrease(w.wal) && TruncatesLast(w.wal)
    ensures Precise(Do(w, Deliver))
  {
    hide Recs, UpTo, Written, RowsIncrease, TruncatesLast, RowsOnce, Do;
    var w' := Do(w, Deliver);
    DeliverShape(w);
    var p := w.proc.value.phase;
    SameArchive(w, w');
    if Replayed(p, w.wal[p.next]) {
      assert Written(w') == Written(w) + [];
    } else {
      assert IsRow(w.wal, p.next) ==> |Written(w)| <= p.next;
      OneMore(Written(w), w.wal, p.next);
    }
  }

  lemma MoreSealed(w: World, w': World)
    requires w'.origin == w.origin && Recs(w.disk.manifest) <= Recs(w'.disk.manifest)
    ensures forall x: nat | UpTo(w, x) :: UpTo(w', x)
  {
    hide Recs;
    forall x: nat | UpTo(w, x)
      ensures UpTo(w', x)
    {
      if x > w.origin {
        var i :| 0 <= i < |Recs(w.disk.manifest)| && x <= Recs(w.disk.manifest)[i].lsn;
        assert Recs(w'.disk.manifest)[i] == Recs(w.disk.manifest)[i];
      }
    }
  }

  lemma {:induction false} PreciseRotate(w: World)
    requires Good(w) && Precise(w) && Can(w, Rotate)
    ensures Precise(Do(w, Rotate))
  {
    hide Recs, Good, RowsOnce, UpTo;
    RotateShape(w);
    MoreSealed(w, Do(w, Rotate));
    assert Written(Do(w, Rotate)) == Written(w);
  }

  lemma {:induction false} PreciseFrame(w: World, w': World)
    requires Precise(w) && w'.origin == w.origin && w'.wal == w.wal && w'.slot == w.slot
    requires Recs(w'.disk.manifest) == Recs(w.disk.manifest) && Written(w') == Written(w)
    requires w'.proc.Some? && w'.proc.value.cur != [] ==> w.proc.Some? && w'.proc.value.cur == w.proc.value.cur
    requires w'.proc.Some? ==>
      if w.proc.Some? then w'.proc.value.phase == w.proc.value.phase else w'.proc.value.phase.Booting?
    ensures Precise(w')
  {
    hide Recs, Written, RowsOnce;
    assert forall x: nat :: UpTo(w', x) == UpTo(w, x);
    hide UpTo;
    assert WalSane(w');
    assert RowsExact(w');
    assert FilterExact(w');
  }

  lemma {:induction false} PreciseQuiet(w: World, a: Action)
    requires Good(w) && Precise(w) && Can(w, a)
    requires a.Boot? || a.Upload? || a.UploadFails? || a.Mark? || a.PutManifest? || a.PutManifestFails?
    ensures Precise(Do(w, a))
  {
    hide Recs, Resume, DiskGood, BucketGood, Precise, Within;
    var w' := Do(w, a);
    RecsPrefix(w.disk.manifest, w'.disk.manifest);
    PreciseFrame(w, w');
  }

  lemma FilterFrame(w: World, w': World)
    requires FilterExact(w) && w.Running() && w'.Running() && w'.wal == w.wal
    requires w'.proc.value.phase == w.proc.value.phase.(acked := w'.proc.value.phase.acked)
    requires UpTo(w', w'.proc.value.phase.acked) && UpTo(w', w.proc.value.phase.skipTo)
    requires |Written(w')| == |Written(w)|
    ensures FilterExact(w')
  {
    hide UpTo, Written;
  }

  lemma {:induction false} PreciseAck(w: World, delivered: bool)
    requires Good(w) && Precise(w) && Can(w, Ack(delivered))
    ensures Precise(Do(w, Ack(delivered)))
  {
    hide Recs, Resume, Good, RowsOnce, UpTo, Written;
    var w' := Do(w, Ack(delivered));
    ResumeWithin(w);
    SameArchive(w, w');
    FilterFrame(w, w');
  }

  lemma {:induction false} PreciseCrash(w: World)
    requires Precise(w) && Can(w, Crash)
    ensures Precise(Do(w, Crash))
  {
    hide Recs;
    var recs := Recs(w.disk.manifest);
    assert forall i | 0 <= i < |recs| :: recs[i] == Written(w)[i];
    assert Written(Do(w, Crash)) == recs;
  }

  lemma ValveIdle(w: World)
    requires Precise(w)
    ensures w.Running() ==> w.proc.value.phase.valve.Idle?
  {
  }

  lemma {:induction false} PreciseStep(w: World, a: Action)
    requires Good(w) && Precise(w) && Can(w, a) && Careful(w, a)
    requires RowsIncrease(Do(w, a).wal) && TruncatesLast(Do(w, a).wal)
    ensures Precise(Do(w, a))
  {
    hide Good, Precise;
    match a {
      case Commit(ev) => PreciseCommit(w, ev);
      case StartStream(pos) => PreciseStart(w, pos);
      case Deliver => PreciseDeliver(w);
      case Rotate => PreciseRotate(w);
      case Ack(delivered) => PreciseAck(w, delivered);
      case MoveSlot(_) => ValveIdle(w);
      case Crash => PreciseCrash(w);
      case _ => PreciseQuiet(w, a);
    }
  }

  lemma {:induction false} CarefulIsRun(from: World, actions: seq<Action>, w: World)
    requires CarefulRun(from, actions, w)
    ensures Runs(from, actions, w)
    decreases |actions|
  {
    hide Can, Do, Careful;
    if actions != [] {
      var earlier, a := actions[..|actions| - 1], actions[|actions| - 1];
      var mid :| CarefulRun(from, earlier, mid) && Can(mid, a) && Careful(mid, a) && w == Do(mid, a);
      CarefulIsRun(from, earlier, mid);
    }
  }

  lemma FewerTruncates(some: seq<Event>, wal: seq<Event>)
    requires some <= wal && TruncatesLast(wal)
    ensures TruncatesLast(some)
  {
    assert forall i | 0 <= i < |some| :: some[i] == wal[i];
  }

  lemma {:induction false} PreciseAfter(remote: bool, origin: nat, actions: seq<Action>, w: World)
    requires CarefulRun(Start(remote, origin), actions, w) && RowsIncrease(w.wal) && TruncatesLast(w.wal)
    ensures Precise(w)
    decreases |actions|
  {
    if actions != [] {
      hide Good, Precise, Do, Can, Careful, RowsIncrease, TruncatesLast;
      var earlier, a := actions[..|actions| - 1], actions[|actions| - 1];
      var mid :| CarefulRun(Start(remote, origin), earlier, mid) && Can(mid, a) && Careful(mid, a) && w == Do(mid, a);
      OnlyCommitGrows(mid, a);
      FewerTruncates(mid.wal, w.wal);
      PreciseAfter(remote, origin, earlier, mid);
      CarefulIsRun(Start(remote, origin), earlier, mid);
      GoodAfter(remote, origin, earlier, mid);
      PreciseStep(mid, a);
    }
  }

  /** After any number of kills and restarts every row change read is archived, and once. */
  lemma {:induction false} RowsComeOnce(remote: bool, origin: nat, actions: seq<Action>, w: World)
    requires CarefulRun(Start(remote, origin), actions, w) && RowsIncrease(w.wal) && TruncatesLast(w.wal)
    ensures RowsExact(w)
  {
    hide RowsExact, Start, CarefulRun, RowsIncrease, TruncatesLast;
    PreciseAfter(remote, origin, actions, w);
  }

  lemma OnlyRow(recs: seq<Rec>, wal: seq<Event>, i: nat)
    requires RowsOnce(recs, wal) && NoTruncates(wal) && i < |recs|
    ensures i < |wal| && recs[i] == Streamed(i, wal[i].lsn)
  {
    var p := recs[i].pos;
    assert wal[p].Filtered();
  }

  lemma OnlyRows(w: World)
    requires RowsExact(w) && NoTruncates(w.wal) && (w.Running() ==> w.proc.value.phase.next <= |w.wal|)
    ensures Exact(w)
  {
    hide Written, RowsOnce;
    var recs := Written(w);
    if w.Running() && w.proc.value.phase.next > 0 { assert IsRow(w.wal, w.proc.value.phase.next - 1); }
    hide NoTruncates;
    if recs != [] { OnlyRow(recs, w.wal, |recs| - 1); }
    forall i | 0 <= i < |recs| ensures recs[i] == Streamed(i, w.wal[i].lsn) { OnlyRow(recs, w.wal, i); }
  }

  /** Without truncates the archive is then a prefix of the stream. */
  lemma {:induction false} RestartsAreExact(remote: bool, origin: nat, actions: seq<Action>, w: World)
    requires CarefulRun(Start(remote, origin), actions, w) && RowsIncrease(w.wal) && NoTruncates(w.wal)
    ensures Exact(w)
  {
    hide RowsExact, Start, CarefulRun, RowsIncrease;
    PreciseAfter(remote, origin, actions, w);
    OnlyRows(w);
  }
}
