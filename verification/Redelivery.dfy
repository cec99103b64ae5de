/**
 * The hypotheses of conservation and of exact restarts are needed: for every stream
 * that breaks one there is a run that loses a change or archives one twice.
 */
module Redelivery {
  import opened Options
  import opened Machine
  import opened Conserve
  import opened Restart

  /** A stream a server could publish: changes before their commits, commits in order. */
  predicate Publishable(origin: nat, stream: seq<Event>) {
    (forall i | 0 <= i < |stream| :: origin < stream[i].lsn < stream[i].commit) &&
    (forall i | 0 < i < |stream| :: stream[i - 1].commit <= stream[i].commit)
  }

  lemma CarefulSnoc(from: World, actions: seq<Action>, w: World, a: Action)
    requires CarefulRun(from, actions, w) && Can(w, a) && Careful(w, a)
    ensures CarefulRun(from, actions + [a], Do(w, a))
  {
    assert (actions + [a])[..|actions|] == actions;
  }

  lemma {:induction false} Publish(remote: bool, origin: nat, stream: seq<Event>, n: nat)
    returns (actions: seq<Action>)
    requires Publishable(origin, stream) && n <= |stream|
    ensures CarefulRun(Start(remote, origin), actions, Start(remote, origin).(wal := stream[..n]))
  {
    if n == 0 {
      actions := [];
    } else {
      var earlier := Publish(remote, origin, stream, n - 1);
      var w := Start(remote, origin).(wal := stream[..n - 1]);
      var a := Commit(stream[n - 1]);
      CarefulSnoc(Start(remote, origin), earlier, w, a);
      assert stream[..n - 1] + [stream[n - 1]] == stream[..n];
      actions := earlier + [a];
    }
  }

  /** What is archived of the changes from `lo` to `hi` when they are sent with this filter. */
  function Kept(skipTo: nat, wal: seq<Event>, lo: nat, hi: nat): seq<Rec>
    requires lo <= hi <= |wal|
    decreases hi
  {
    if lo == hi then []
    else
      var e := wal[hi - 1];
      Kept(skipTo, wal, lo, hi - 1) +
      if e.Filtered() && skipTo != 0 && e.lsn <= skipTo then [] else [Streamed(hi - 1, e.lsn)]
  }

  predicate Sent(w: World, w': World, n: nat)
    requires w.Running()
  {
    var p, p' := w.proc.value, if w'.proc.Some? then w'.proc.value else w.proc.value;
    w'.origin == w.origin && w'.wal == w.wal && w'.slot == w.slot && w'.remote == w.remote &&
    w'.disk.manifest == w.disk.manifest && w'.bucket == w.bucket &&
    w'.Running() && p'.phase == p.phase.(next := p.phase.next + n) &&
    p'.segs == p.segs && p'.manifestSeq == p.manifestSeq &&
    p.phase.next + n <= |w.wal| &&
    p'.cur == p.cur + Kept(p.phase.skipTo, w.wal, p.phase.next, p.phase.next + n)
  }

  lemma {:induction false} Send(from: World, actions: seq<Action>, w: World, n: nat)
    returns (actions': seq<Action>, w': World)
    requires CarefulRun(from, actions, w) && w.Running() && w.proc.value.phase.valve.Idle?
    requires w.proc.value.phase.next + n <= |w.wal|
    ensures CarefulRun(from, actions', w') && Sent(w, w', n)
    decreases n
  {
    hide CarefulRun;
    if n == 0 {
      actions', w' := actions, w;
    } else {
      var earlier, mid := Send(from, actions, w, n - 1);
      DeliverShape(mid);
      hide Do;
      CarefulSnoc(from, earlier, mid, Deliver);
      actions', w' := earlier + [Deliver], Do(mid, Deliver);
    }
  }

  lemma {:induction false} KeptAll(stream: seq<Event>, a: nat)
    requires 0 < a <= |stream|
    ensures var recs := Kept(0, stream, 0, a); IsStream(recs, stream) && |recs| == a
    decreases a
  {
    if a > 1 { KeptAll(stream, a - 1); }
  }

  /** All is published, and a first process starts to stream it. */
  function Launched(remote: bool, origin: nat, stream: seq<Event>): World {
    Start(remote, origin).(wal := stream, proc := Some(Proc([], [], 0, Streaming(0, 0, origin, Idle))))
  }

  lemma {:induction false} Launch(remote: bool, origin: nat, stream: seq<Event>)
    returns (actions: seq<Action>)
    requires Publishable(origin, stream)
    ensures CarefulRun(Start(remote, origin), actions, Launched(remote, origin, stream))
  {
    hide CarefulRun, Publishable;
    var from := Start(remote, origin);
    var as0 := Publish(remote, origin, stream, |stream|);
    var w0 := from.(wal := stream);
    assert stream[..|stream|] == stream;
    CarefulSnoc(from, as0, w0, Boot);
    LaunchSteps(remote, origin, stream);
    hide Do, Can;
    CarefulSnoc(from, as0 + [Boot], Do(w0, Boot), StartStream(0));
    actions := as0 + [Boot] + [StartStream(0)];
  }

  lemma LaunchSteps(remote: bool, origin: nat, stream: seq<Event>)
    ensures var w := Do(Start(remote, origin).(wal := stream), Boot);
      Can(w, StartStream(0)) && Careful(w, StartStream(0)) && Do(w, StartStream(0)) == Launched(remote, origin, stream)
  {
  }

  predicate AllUploaded(segs: Manifest) {
    forall i | 0 <= i < |segs| :: segs[i].uploaded
  }

  /** A running process that has confirmed all it sealed. */
  predicate Settled(w: World) {
    w.Running() && w.proc.value.phase.valve.Idle? && w.disk.manifest == w.proc.value.segs &&
    (w.remote ==> AllUploaded(w.disk.manifest) && w.proc.value.manifestSeq == |w.disk.manifest|)
  }

  lemma {:induction false} PendingIs(segs: Manifest)
    requires segs != [] ==> AllUploaded(segs[..|segs| - 1])
    ensures FirstPending(segs) == if AllUploaded(segs) then |segs| else |segs| - 1
  {
    assert forall i | 0 <= i < |segs| - 1 :: segs[..|segs| - 1][i] == segs[i];
  }

  /** All is sealed, and shipped where there is a bucket; the slot is moved, the process killed and started again. */
  predicate Stopped(w: World, w': World)
    requires w.proc.Some?
  {
    w'.origin == w.origin && w'.wal == w.wal && w'.remote == w.remote && w'.disk.manifest != [] &&
    w'.proc == Some(Proc(w'.disk.manifest, [], 0, Booting)) &&
    (w.remote ==> AllUploaded(w'.disk.manifest) && w'.bucket.manifest == w'.disk.manifest) &&
    Recs(w'.disk.manifest) == Written(w) && w'.disk.manifest[|w'.disk.manifest| - 1].recs == w.proc.value.cur
  }

  /** What rotating leaves, and after it, where there is a bucket, a push. */
  predicate Shipped(w: World, w': World)
    requires w.proc.Some?
  {
    Settled(w') && w'.origin == w.origin && w'.wal == w.wal && w'.remote == w.remote && w'.disk.manifest != [] &&
    (w.remote ==> w'.bucket.manifest == w'.disk.manifest) && w'.proc.value.cur == [] &&
    Recs(w'.disk.manifest) == Written(w) && w'.disk.manifest[|w'.disk.manifest| - 1].recs == w.proc.value.cur
  }

  /** The open segment is sealed. */
  predicate Rotated(w: World, w': World)
    requires w.proc.Some?
  {
    w' == w.(disk := w'.disk, proc := Some(w.proc.value.(segs := w'.disk.manifest, cur := []))) &&
    w'.disk.manifest == w.disk.manifest + [Segment(w.proc.value.cur, false)]
  }

  lemma RotatedIs(w: World)
    requires Settled(w) && w.proc.value.cur != []
    ensures Can(w, Rotate) && Careful(w, Rotate) && Rotated(w, Do(w, Rotate))
  {
  }

  lemma {:induction false} Ship(from: World, actions: seq<Action>, w: World)
    returns (actions': seq<Action>, w': World)
    requires CarefulRun(from, actions, w) && Settled(w) && w.proc.value.cur != []
    ensures CarefulRun(from, actions', w') && Shipped(w, w')
  {
    hide CarefulRun, Recs, Do, Can, FirstPending;
    RotatedIs(w);
    CarefulSnoc(from, actions, w, Rotate);
    actions', w' := actions + [Rotate], Do(w, Rotate);
    RecsSnoc(w.disk.manifest, Segment(w.proc.value.cur, false));
    if w.remote {
      var m := w.disk.manifest + [Segment(w.proc.value.cur, true)];
      RecsSnoc(w.disk.manifest, Segment(w.proc.value.cur, true));
      assert forall i | 0 <= i < |m| :: m[i].uploaded;
      actions', w' := Push(from, actions', w', w.disk.manifest, w.proc.value.cur);
    }
  }

  /** Upload, mark, and put the manifest. */
  lemma {:induction false} Push(from: World, actions: seq<Action>, w: World, done: Manifest, cur: seq<Rec>)
    returns (actions': seq<Action>, w': World)
    requires CarefulRun(from, actions, w) && w.Running() && w.remote && AllUploaded(done)
    requires w.disk.manifest == w.proc.value.segs == done + [Segment(cur, false)] && w.proc.value.manifestSeq == |done|
    ensures CarefulRun(from, actions', w')
    ensures var m := done + [Segment(cur, true)];
      w'.disk.manifest == w'.bucket.manifest == m && w'.origin == w.origin && w'.wal == w.wal && w'.remote == w.remote &&
      w'.proc == Some(w.proc.value.(segs := m, manifestSeq := |m|))
  {
    hide CarefulRun;
    var n, segs := |done|, w.proc.value.segs;
    assert segs[..n] == done && !segs[n].uploaded;
    PendingIs(segs);
    CarefulSnoc(from, actions, w, Upload);
    var w1 := Do(w, Upload);
    var m := done + [Segment(cur, true)];
    assert w1.proc.value.segs == m && m[..n] == done;
    PendingIs(m);
    CarefulSnoc(from, actions + [Upload], w1, Mark);
    var w2 := Do(w1, Mark);
    CarefulSnoc(from, actions + [Upload] + [Mark], w2, PutManifest);
    actions', w' := actions + [Upload] + [Mark] + [PutManifest], Do(w2, PutManifest);
  }

  lemma RecsSnoc(segs: Manifest, s: Segment)
    ensures Recs(segs + [s]) == Recs(segs) + s.recs
  {
    assert (segs + [s])[..|segs|] == segs;
  }

  lemma {:induction false} Stop(from: World, actions: seq<Action>, w: World)
    returns (actions': seq<Action>, w': World)
    requires CarefulRun(from, actions, w) && Settled(w) && w.proc.value.cur != []
    ensures CarefulRun(from, actions', w') && Stopped(w, w')
    ensures w'.slot >= w.proc.value.cur[|w.proc.value.cur| - 1].lsn
  {
    hide CarefulRun, Recs;
    var as0, w0 := Ship(from, actions, w);
    EndsAt(w0);
    CarefulSnoc(from, as0, w0, Ack(true));
    var w1 := Do(w0, Ack(true));
    CarefulSnoc(from, as0 + [Ack(true)], w1, Crash);
    var w2 := Do(w1, Crash);
    CarefulSnoc(from, as0 + [Ack(true)] + [Crash], w2, Boot);
    actions', w' := as0 + [Ack(true)] + [Crash] + [Boot], Do(w2, Boot);
  }

  /** With everything confirmed, ResumeLSN is the end of the archive. */
  lemma EndsAt(w: World)
    requires w.proc.Some? && w.proc.value.segs != []
    requires w.remote ==> AllUploaded(w.proc.value.segs) && w.proc.value.manifestSeq == |w.proc.value.segs|
    ensures var segs := w.proc.value.segs; Resume(w) == segs[|segs| - 1].EndLsn()
  {
    if w.remote { ConfirmedUpTo(w.proc.value.segs, w.proc.value.manifestSeq); }
  }

  /** Stopped, started, all confirmed again and streaming from the beginning. */
  lemma {:induction false} Again(from: World, actions: seq<Action>, w: World)
    returns (actions': seq<Action>, w': World)
    requires CarefulRun(from, actions, w) && Settled(w) && w.proc.value.cur != []
    ensures CarefulRun(from, actions', w') && Settled(w') && w'.wal == w.wal && w'.remote == w.remote
    ensures w'.proc.value.cur == [] && w'.proc.value.phase.next == 0
    ensures var last := w.proc.value.cur[|w.proc.value.cur| - 1].lsn; w'.proc.value.phase.skipTo == last <= w'.slot
    ensures Recs(w'.disk.manifest) == DurableRecs(w') == Written(w)
  {
    hide CarefulRun, Recs;
    actions', w' := Stop(from, actions, w);
    if w.remote {
      var segs := w'.proc.value.segs;
      assert AllUploaded(segs[..|segs| - 1]);
      PendingIs(segs);
      CarefulSnoc(from, actions', w', PutManifest);
      actions', w' := actions' + [PutManifest], Do(w', PutManifest);
    }
    EndsAt(w');
    CarefulSnoc(from, actions', w', StartStream(0));
    actions', w' := actions' + [StartStream(0)], Do(w', StartStream(0));
  }

  /** The first `a` changes are archived, and the process starts again. */
  lemma {:induction false} FirstPass(remote: bool, origin: nat, stream: seq<Event>, a: nat)
    returns (actions: seq<Action>, w: World)
    requires Publishable(origin, stream) && 0 < a <= |stream|
    ensures CarefulRun(Start(remote, origin), actions, w) && w.remote == remote && w.wal == stream
    ensures Settled(w) && w.Running() && w.disk.manifest == [] && w.proc.value.cur == Kept(0, stream, 0, a)
    ensures |w.proc.value.cur| == a && w.proc.value.cur[a - 1].lsn == stream[a - 1].lsn
  {
    hide CarefulRun, Kept, Publishable;
    var from := Start(remote, origin);
    var as0 := Launch(remote, origin, stream);
    actions, w := Send(from, as0, Launched(remote, origin, stream), a);
    KeptAll(stream, a);
    assert [] + Kept(0, stream, 0, a) == Kept(0, stream, 0, a);
  }

  /** Everything is sent again, up to `b`, to a process that knows what it has. */
  lemma {:induction false} SecondPass(remote: bool, origin: nat, stream: seq<Event>, a: nat, b: nat)
    returns (actions: seq<Action>, w: World)
    requires Publishable(origin, stream) && 0 < a <= |stream| && b <= |stream|
    ensures CarefulRun(Start(remote, origin), actions, w) && w.wal == stream && w.remote == remote
    ensures Settled(w) && w.slot >= stream[a - 1].lsn && w.proc.value.phase.next == b
    ensures Recs(w.disk.manifest) == DurableRecs(w) == Kept(0, stream, 0, a)
    ensures w.proc.value.cur == Kept(stream[a - 1].lsn, stream, 0, b)
    ensures Written(w) == Kept(0, stream, 0, a) + Kept(stream[a - 1].lsn, stream, 0, b)
  {
    hide CarefulRun, Kept, Publishable, Recs;
    var from := Start(remote, origin);
    var as0, w0 := FirstPass(remote, origin, stream, a);
    NothingSealed(w0);
    var as1, w1 := Again(from, as0, w0);
    actions, w := Send(from, as1, w1, b);
    assert [] + Kept(stream[a - 1].lsn, stream, 0, b) == Kept(stream[a - 1].lsn, stream, 0, b);
  }

  lemma NothingSealed(w: World)
    requires w.disk.manifest == [] && w.proc.Some?
    ensures Written(w) == w.proc.value.cur
  {
  }

  /** And a third time, after a second that ended with a line for stream[b - 1]. */
  lemma {:induction false} ThirdPass(remote: bool, origin: nat, stream: seq<Event>, a: nat, b: nat, c: nat)
    returns (actions: seq<Action>, w: World)
    requires Publishable(origin, stream) && 0 < a <= |stream| && 0 < b <= |stream| && c <= |stream|
    requires !stream[b - 1].Filtered()
    ensures CarefulRun(Start(remote, origin), actions, w) && w.wal == stream
    ensures Written(w) == Kept(0, stream, 0, a) + Kept(stream[a - 1].lsn, stream, 0, b) + Kept(stream[b - 1].lsn, stream, 0, c)
  {
    KeptLast(stream[a - 1].lsn, stream, b);
    hide CarefulRun, Kept, Publishable, Recs;
    var from := Start(remote, origin);
    var as0, w0 := SecondPass(remote, origin, stream, a, b);
    var as1, w1 := Again(from, as0, w0);
    actions, w := Send(from, as1, w1, c);
    assert [] + Kept(stream[b - 1].lsn, stream, 0, c) == Kept(stream[b - 1].lsn, stream, 0, c);
  }

  lemma KeptLast(skipTo: nat, stream: seq<Event>, b: nat)
    requires 0 < b <= |stream| && !(stream[b - 1].Filtered() && skipTo != 0 && stream[b - 1].lsn <= skipTo)
    ensures var recs := Kept(skipTo, stream, 0, b); recs != [] && recs[|recs| - 1] == Streamed(b - 1, stream[b - 1].lsn)
  {
  }

  predicate KeptFrom(r: Rec, skipTo: nat, wal: seq<Event>, hi: nat) {
    r.Streamed? && r.pos < hi <= |wal| && r.lsn == wal[r.pos].lsn &&
    !(wal[r.pos].Filtered() && skipTo != 0 && r.lsn <= skipTo)
  }

  lemma {:induction false} KeptOnly(skipTo: nat, wal: seq<Event>, hi: nat)
    requires hi <= |wal|
    ensures forall r | r in Kept(skipTo, wal, 0, hi) :: KeptFrom(r, skipTo, wal, hi)
    decreases hi
  {
    if hi > 0 { KeptOnly(skipTo, wal, hi - 1); }
  }

  lemma NotHeld(recs: seq<Rec>, pos: nat, lsn: nat)
    requires forall r | r in recs :: r.Streamed? && r.pos != pos
    ensures !Holds(recs, pos) && !InGap(recs, lsn)
  {
    assert forall i | 0 <= i < |recs| :: recs[i] in recs;
  }

  /** A row change not above one before it is skipped after a restart, and lost. */
  lemma {:induction false} LateChangeIsLost(remote: bool, origin: nat, stream: seq<Event>, i: nat, j: nat)
    returns (actions: seq<Action>, w: World)
    requires Publishable(origin, stream)
    requires i < j < |stream| && stream[j].Filtered() && stream[j].lsn <= stream[i].lsn
    ensures CarefulRun(Start(remote, origin), actions, w) && w.wal == stream
    ensures !Conserved(w) && !NothingDropped(w) && !Exact(w)
  {
    hide CarefulRun, Kept, Recs, DurableRecs;
    actions, w := SecondPass(remote, origin, stream, i + 1, j + 1);
    KeptOnly(0, stream, i + 1);
    KeptOnly(stream[i].lsn, stream, j + 1);
    NotHeld(Written(w), j, stream[j].lsn);
    NotHeld(DurableRecs(w), j, stream[j].lsn);
  }

  /** Conservation holds of a stream exactly if its row changes come in LSN order. */
  lemma {:induction false} NothingIsLostIff(remote: bool, origin: nat, stream: seq<Event>)
    requires Publishable(origin, stream)
    ensures
      (forall actions, w | Runs(Start(remote, origin), actions, w) && w.wal == stream ::
        Conserved(w) && NothingDropped(w)) <==>
      RowsIncrease(stream)
  {
    hide Runs, Conserved, NothingDropped, CarefulRun;
    if RowsIncrease(stream) {
      forall actions, w | Runs(Start(remote, origin), actions, w) && w.wal == stream
        ensures Conserved(w) && NothingDropped(w)
      {
        NothingIsLost(remote, origin, actions, w);
      }
    } else {
      var i, j :| 0 <= i < j < |stream| && stream[j].Filtered() && stream[i].lsn >= stream[j].lsn;
      var actions, w := LateChangeIsLost(remote, origin, stream, i, j);
      CarefulIsRun(Start(remote, origin), actions, w);
    }
  }

  /** A truncate is not filtered: sent again, it is archived again. */
  lemma {:induction false} TruncateComesTwice(remote: bool, origin: nat, stream: seq<Event>, k: nat)
    returns (actions: seq<Action>, w: World)
    requires Publishable(origin, stream) && k < |stream| && !stream[k].Filtered()
    ensures CarefulRun(Start(remote, origin), actions, w) && w.wal == stream && !Exact(w)
  {
    hide CarefulRun, Recs, DurableRecs;
    actions, w := SecondPass(remote, origin, stream, k + 1, k + 1);
    KeptAll(stream, k + 1);
    var recs := Written(w);
    assert recs[|recs| - 1] == Streamed(k, stream[k].lsn) && |recs| > k + 1;
  }

  lemma {:induction false} GoesWrong(remote: bool, origin: nat, stream: seq<Event>)
    returns (actions: seq<Action>, w: World)
    requires Publishable(origin, stream) && !(RowsIncrease(stream) && NoTruncates(stream))
    ensures CarefulRun(Start(remote, origin), actions, w) && w.wal == stream && !Exact(w)
  {
    hide CarefulRun, Exact, Conserved, NothingDropped;
    if !RowsIncrease(stream) {
      var i, j :| 0 <= i < j < |stream| && stream[j].Filtered() && stream[i].lsn >= stream[j].lsn;
      actions, w := LateChangeIsLost(remote, origin, stream, i, j);
    } else {
      var k :| 0 <= k < |stream| && !stream[k].Filtered();
      actions, w := TruncateComesTwice(remote, origin, stream, k);
    }
  }

  /** Careful restarts are exact for a stream exactly if it is ordered and has no truncate. */
  lemma {:induction false} RestartsAreExactIff(remote: bool, origin: nat, stream: seq<Event>)
    requires Publishable(origin, stream)
    ensures
      (forall actions, w | CarefulRun(Start(remote, origin), actions, w) && w.wal == stream :: Exact(w)) <==>
      RowsIncrease(stream) && NoTruncates(stream)
  {
    hide CarefulRun, Exact, RowsIncrease, NoTruncates;
    if RowsIncrease(stream) && NoTruncates(stream) {
      forall actions, w | CarefulRun(Start(remote, origin), actions, w) && w.wal == stream
        ensures Exact(w)
      {
        RestartsAreExact(remote, origin, actions, w);
      }
    } else {
      var actions, w := GoesWrong(remote, origin, stream);
    }
  }

  // ---- Row changes alone -------------------------------------------------------

  predicate NoRowTwice(recs: seq<Rec>, wal: seq<Event>) {
    forall i, j | 0 <= i < j < |recs| && recs[i].Streamed? && recs[j].Streamed? && recs[i].pos == recs[j].pos ::
      !IsRow(wal, recs[i].pos)
  }

  /** Every row change read is archived, and none twice. */
  predicate RowsArchivedOnce(w: World) {
    NoRowTwice(Written(w), w.wal) && NothingDropped(w)
  }

  lemma ExactIsOnce(w: World)
    requires RowsExact(w)
    ensures RowsArchivedOnce(w)
  {
    hide Recs, Written;
    var recs := Written(w);
    if w.Running() {
      forall j | 0 <= j < w.proc.value.phase.next && IsRow(w.wal, j) ensures Holds(recs, j) {
        assert recs[j].pos == j;
      }
    }
  }

  lemma TwiceThere(recs: seq<Rec>, wal: seq<Event>, i: nat)
    requires i < |recs| - 1 && IsRow(wal, i)
    requires recs[i] == Streamed(i, wal[i].lsn) == recs[|recs| - 1]
    ensures !NoRowTwice(recs, wal)
  {
  }

  /** A truncate below an earlier row change ends the archive too low: the row comes again. */
  lemma {:induction false} RowComesTwice(remote: bool, origin: nat, stream: seq<Event>, j: nat, k: nat)
    returns (actions: seq<Action>, w: World)
    requires Publishable(origin, stream) && j < k < |stream| && IsRow(stream, j)
    requires stream[k].lsn < stream[j].lsn
    ensures CarefulRun(Start(remote, origin), actions, w) && w.wal == stream && !RowsArchivedOnce(w)
  {
    hide CarefulRun, Kept, Recs, Publishable, Settled, NoRowTwice, NothingDropped, Written, DurableRecs;
    actions, w := SecondPass(remote, origin, stream, k + 1, j + 1);
    KeptAll(stream, k + 1);
    KeptLast(stream[k].lsn, stream, j + 1);
    TwiceThere(Written(w), stream, j);
  }

  /** A truncate before a row change, archived again after it, does the same. */
  lemma {:induction false} LaterRowComesTwice(remote: bool, origin: nat, stream: seq<Event>, k: nat, j: nat)
    returns (actions: seq<Action>, w: World)
    requires Publishable(origin, stream) && k < j < |stream| && IsRow(stream, j) && !stream[k].Filtered()
    requires stream[k].lsn < stream[j].lsn
    ensures CarefulRun(Start(remote, origin), actions, w) && w.wal == stream && !RowsArchivedOnce(w)
  {
    hide CarefulRun, Kept, Recs, Publishable, NoRowTwice, NothingDropped, Written;
    actions, w := ThirdPass(remote, origin, stream, j + 1, k + 1, j + 1);
    KeptAll(stream, j + 1);
    KeptLast(stream[k].lsn, stream, j + 1);
    TwiceThere(Written(w), stream, j);
  }

  lemma {:induction false} RowsGoWrong(remote: bool, origin: nat, stream: seq<Event>)
    returns (actions: seq<Action>, w: World)
    requires Publishable(origin, stream) && !(RowsIncrease(stream) && TruncatesLast(stream))
    ensures CarefulRun(Start(remote, origin), actions, w) && w.wal == stream && !RowsArchivedOnce(w)
  {
    hide CarefulRun, Conserved, NothingDropped, NoRowTwice, Exact, Written;
    if !RowsIncrease(stream) {
      var i, j :| 0 <= i < j < |stream| && stream[j].Filtered() && stream[i].lsn >= stream[j].lsn;
      actions, w := LateChangeIsLost(remote, origin, stream, i, j);
    } else {
      var j, k :| IsRow(stream, j) && 0 <= k < |stream| && !stream[k].Filtered() && !(j < k && stream[j].lsn <= stream[k].lsn);
      if j < k {
        actions, w := RowComesTwice(remote, origin, stream, j, k);
      } else {
        actions, w := LaterRowComesTwice(remote, origin, stream, k, j);
      }
    }
  }

  /**
   * Under careful restarts every row change is archived just once for a stream exactly
   * if its row changes come in LSN order and its truncates after all of them, none lower.
   */
  lemma {:induction false} RowsComeOnceIff(remote: bool, origin: nat, stream: seq<Event>)
    requires Publishable(origin, stream)
    ensures
      (forall actions, w | CarefulRun(Start(remote, origin), actions, w) && w.wal == stream :: RowsArchivedOnce(w)) <==>
      RowsIncrease(stream) && TruncatesLast(stream)
  {
    hide CarefulRun, RowsExact, RowsIncrease, TruncatesLast, RowsArchivedOnce;
    if RowsIncrease(stream) && TruncatesLast(stream) {
      forall actions, w | CarefulRun(Start(remote, origin), actions, w) && w.wal == stream
        ensures RowsArchivedOnce(w)
      {
        RowsComeOnce(remote, origin, actions, w);
        ExactIsOnce(w);
      }
    } else {
      var actions, w := RowsGoWrong(remote, origin, stream);
    }
  }

  // ---- Restarting without a confirmed bucket ------------------------------------

  predicate ValveShut(actions: seq<Action>) {
    forall k | 0 <= k < |actions| :: !actions[k].OpenValve?
  }

  lemma {:induction false} CarefulIsShut(from: World, actions: seq<Action>, w: World)
    requires CarefulRun(from, actions, w)
    ensures ValveShut(actions)
    decreases |actions|
  {
    hide Can, Do, Confirms;
    if actions != [] {
      var earlier, a := actions[..|actions| - 1], actions[|actions| - 1];
      var mid :| CarefulRun(from, earlier, mid) && Can(mid, a) && Careful(mid, a) && w == Do(mid, a);
      CarefulIsShut(from, earlier, mid);
    }
  }

  /** Without a bucket there is nothing to confirm. */
  lemma {:induction false} LocalIsCareful(origin: nat, actions: seq<Action>, w: World)
    requires Runs(Start(false, origin), actions, w) && ValveShut(actions)
    ensures CarefulRun(Start(false, origin), actions, w)
    decreases |actions|
  {
    hide Can, Do;
    if actions != [] {
      var earlier, a := actions[..|actions| - 1], actions[|actions| - 1];
      var mid :| Runs(Start(false, origin), earlier, mid) && Can(mid, a) && w == Do(mid, a);
      LocalIsCareful(origin, earlier, mid);
      RemoteStays(false, origin, earlier, mid);
      assert Careful(mid, a);
    }
  }

  /** What the bucket's manifest covers is known only in memory: a failed push at start-up forgets it. */
  lemma {:induction false} UnconfirmedComesTwice(origin: nat, stream: seq<Event>)
    returns (actions: seq<Action>, w: World)
    requires Publishable(origin, stream) && stream != []
    ensures Runs(Start(true, origin), actions, w) && ValveShut(actions) && w.wal == stream && !Exact(w)
  {
    hide CarefulRun, Runs, Kept, Recs, Do, Can, Exact, Settled, ValveShut;
    var from := Start(true, origin);
    var as1, w1 := StoppedOnce(origin, stream);
    CarefulIsRun(from, as1, w1);
    CarefulIsShut(from, as1, w1);
    w := DeliverAgain(w1, stream);
    RunsSnoc(from, as1, w1, StartStream(0));
    RunsSnoc(from, as1 + [StartStream(0)], Do(w1, StartStream(0)), Deliver);
    actions := as1 + [StartStream(0)] + [Deliver];
    StillShut(as1);
  }

  lemma StillShut(actions: seq<Action>)
    requires ValveShut(actions)
    ensures ValveShut(actions + [StartStream(0)] + [Deliver])
  {
  }

  lemma {:induction false} StoppedOnce(origin: nat, stream: seq<Event>)
    returns (actions: seq<Action>, w: World)
    requires Publishable(origin, stream) && stream != []
    ensures CarefulRun(Start(true, origin), actions, w)
    ensures w.remote && w.wal == stream && w.proc == Some(Proc(w.disk.manifest, [], 0, Booting))
    ensures Recs(w.disk.manifest) == [Streamed(0, stream[0].lsn)]
  {
    hide CarefulRun, Kept, Recs, Publishable, Written, Settled;
    var as0, w0 := FirstPass(true, origin, stream, 1);
    NothingSealed(w0);
    FirstKept(stream);
    actions, w := Stop(Start(true, origin), as0, w0);
  }

  lemma FirstKept(stream: seq<Event>)
    requires stream != []
    ensures Kept(0, stream, 0, 1) == [Streamed(0, stream[0].lsn)]
  {
  }

  lemma {:induction false} DeliverAgain(w: World, stream: seq<Event>) returns (w': World)
    requires w.remote && w.wal == stream != [] && w.proc == Some(Proc(w.disk.manifest, [], 0, Booting))
    requires Recs(w.disk.manifest) == [Streamed(0, stream[0].lsn)]
    ensures Can(w, StartStream(0)) && Can(Do(w, StartStream(0)), Deliver)
    ensures w' == Do(Do(w, StartStream(0)), Deliver) && w'.wal == stream && !Exact(w')
  {
    hide Recs;
    assert Resume(w) == 0;
    var w1 := Do(w, StartStream(0));
    w' := Do(w1, Deliver);
    assert Written(w')[1] == Streamed(0, stream[0].lsn);
  }

  /** With the valve shut and no more care than that: exact if and only if there is no bucket besides. */
  lemma {:induction false} ExactWithoutConfirmationIff(remote: bool, origin: nat, stream: seq<Event>)
    requires Publishable(origin, stream) && stream != []
    ensures
      (forall actions, w | Runs(Start(remote, origin), actions, w) && ValveShut(actions) && w.wal == stream ::
        Exact(w)) <==>
      !remote && RowsIncrease(stream) && NoTruncates(stream)
  {
    hide CarefulRun, Runs, Exact, ValveShut, RowsIncrease, NoTruncates;
    if !remote && RowsIncrease(stream) && NoTruncates(stream) {
      forall actions, w | Runs(Start(remote, origin), actions, w) && ValveShut(actions) && w.wal == stream
        ensures Exact(w)
      {
        LocalIsCareful(origin, actions, w);
        RestartsAreExact(remote, origin, actions, w);
      }
    } else if remote {
      var actions, w := UnconfirmedComesTwice(origin, stream);
      assert Runs(Start(remote, origin), actions, w) && ValveShut(actions);
    } else {
      var actions, w := GoesWrong(remote, origin, stream);
      CarefulIsRun(Start(remote, origin), actions, w);
      CarefulIsShut(Start(remote, origin), actions, w);
    }
  }
}
