/**
 * The companion process as it is written: an archive and a streamer whose methods
 * update their fields in place. Each persistent effect is one step of the machine,
 * so a kill at any point of any method leaves a state the machine can reach.
 */
module Companions {
  import opened Options
  import opened Machine
  import opened Conserve
  import opened Restart

  /** What happens around the process while it runs. */
  datatype Input =
    | Published(ev: Event)                 // the server commits a change
    | Message(full: bool)                  // the next change arrives; it may fill the segment
    | Tick(over: bool, current: nat)       // the status timer; the slot may retain too much

  predicate Publishes(origin: nat, wal: seq<Event>, ev: Event) {
    origin < ev.lsn < ev.commit && (wal == [] || wal[|wal| - 1].commit <= ev.commit)
  }

  /** How far the stream and the reading of it have come after these inputs. */
  function Followed(inputs: seq<Input>, origin: nat, wal: seq<Event>, next: nat): (seq<Event>, nat) {
    if inputs == [] then (wal, next)
    else
      var (w, n) := Followed(inputs[..|inputs| - 1], origin, wal, next);
      match inputs[|inputs| - 1]
      case Published(ev) => (if Publishes(origin, w, ev) then w + [ev] else w, n)
      case Message(_) => (w, if n < |w| then n + 1 else n)
      case Tick(_, _) => (w, n)
  }

  function Pending(segs: Manifest): nat {
    if segs == [] then 0 else Pending(segs[..|segs| - 1]) + if segs[|segs| - 1].uploaded then 0 else 1
  }

  /** Uploads and nothing else, as many as there are segments marked since. */
  predicate Uploading(was: Manifest, segs: Manifest, from: seq<Action>, ups: seq<Action>, changed: bool) {
    && (changed <==> |ups| > |from|)
    && from <= ups && |ups| - |from| == Pending(was) - Pending(segs)
    && forall i | |from| <= i < |ups| :: ups[i] == Upload
  }

  /** The steps of one round: uploads, then one that failed unless all went through, then the marks if any were made. */
  ghost predicate UploadRound(was: Manifest, segs: Manifest, from: seq<Action>, after: seq<Action>, ok: bool) {
    exists ups: seq<Action>, changed :: Uploading(was, segs, from, ups, changed) &&
      var failed := if ok then 0 else 1;
      && ups <= after && |ups| + failed <= |after| && (!ok ==> after[|ups|].UploadFails?)
      && after[|ups| + failed..] == if changed then [Mark] else []
  }

  /** One of the steps taken since is a put that failed. */
  predicate PutFailed(was: seq<Action>, now: seq<Action>) {
    exists i :: |was| <= i < |now| && (now[i].UploadFails? || now[i].PutManifestFails?)
  }

  lemma UploadingMore(was: Manifest, segs: Manifest, from: seq<Action>, ups: seq<Action>, changed: bool, i: nat)
    requires Uploading(was, segs, from, ups, changed) && i < |segs| && !segs[i].uploaded
    ensures Uploading(was, segs[i := segs[i].(uploaded := true)], from, ups + [Upload], true)
  {
    OneLessPending(segs, i);
  }

  lemma RoundMade(was: Manifest, segs: Manifest, from: seq<Action>, ups: seq<Action>, changed: bool,
                  failed: seq<Action>, after: seq<Action>)
    requires Uploading(was, segs, from, ups, changed)
    requires failed == [] || (|failed| == 1 && failed[0].UploadFails?)
    requires after == ups + failed + if changed then [Mark] else []
    ensures UploadRound(was, segs, from, after, failed == [])
  {
  }

  lemma MarkKeepsRecs(was: Manifest, segs: Manifest, i: nat)
    requires i < |segs| == |was| && SameRecs(segs, was)
    ensures SameRecs(segs[i := segs[i].(uploaded := true)], was)
  {
  }

  lemma RoundGrows(was: Manifest, segs: Manifest, from: seq<Action>, after: seq<Action>, ok: bool)
    requires UploadRound(was, segs, from, after, ok)
    ensures from <= after
  {
  }

  lemma RoundFailed(was: Manifest, segs: Manifest, from: seq<Action>, after: seq<Action>)
    requires UploadRound(was, segs, from, after, false)
    ensures PutFailed(from, after)
  {
  }

  lemma PutIsLast(was: seq<Action>, mid: seq<Action>)
    requires was <= mid
    ensures forall now: seq<Action> | mid <= now && |now| == |mid| + 1 && now[|mid|].PutManifestFails? :: PutFailed(was, now)
  {
  }

  lemma FailedSince(was: seq<Action>, mid: seq<Action>, now: seq<Action>)
    requires was <= mid && PutFailed(mid, now)
    ensures PutFailed(was, now)
  {
  }

  lemma FailedBefore(was: seq<Action>, mid: seq<Action>, now: seq<Action>, later: seq<Action>)
    requires was <= mid && PutFailed(mid, now) && now <= later
    ensures PutFailed(was, later)
  {
  }

  lemma {:induction false} OneLessPending(segs: Manifest, i: nat)
    requires i < |segs| && !segs[i].uploaded
    ensures Pending(segs[i := segs[i].(uploaded := true)]) + 1 == Pending(segs)
    decreases |segs|
  {
    var n := |segs| - 1;
    var after := segs[i := segs[i].(uploaded := true)];
    if i < n {
      OneLessPending(segs[..n], i);
      assert after[..n] == segs[..n][i := segs[i].(uploaded := true)];
    } else {
      assert after[..n] == segs[..n];
    }
  }

  class Companion {
    const remote: bool
    const origin: nat

    // The archive: manifest and open segment in memory, then the directory and the bucket.
    var segs: Manifest
    var cur: seq<Rec>
    var manifestSeq: nat
    var disk: Disk
    var bucket: Bucket

    // The streamer, and the server's side of the slot.
    var phase: Phase
    var slot: nat
    var wal: seq<Event>

    // The steps taken so far, earlier incarnations included.
    ghost var trace: seq<Action>

    function World(): World
      reads this
    {
      Machine.World(remote, origin, wal, slot, disk, bucket, Some(Proc(segs, cur, manifestSeq, phase)))
    }

    ghost predicate Reached(w: World)
      reads this
    {
      Runs(Start(remote, origin), trace, w)
    }

    /** The state is one the machine reaches, and the marks on disk are those in memory. */
    ghost predicate Valid()
      reads this
    {
      Reached(World()) && disk.manifest == segs
    }

    ghost method Took(a: Action, before: World)
      requires Reached(before) && Can(before, a) && World() == Do(before, a)
      modifies this`trace
      ensures Reached(World()) && trace == old(trace) + [a]
    {
      RunsSnoc(Start(remote, origin), trace, before, a);
      trace := trace + [a];
    }

    /** Opening the archive starts from what the directory holds. */
    constructor Open(w: World, ghost earlier: seq<Action>)
      requires w.proc.None? && Runs(Start(w.remote, w.origin), earlier, w)
      ensures Valid() && phase.Booting? && cur == [] && World() == Do(w, Boot)
    {
      remote, origin := w.remote, w.origin;
      segs, cur, manifestSeq := w.disk.manifest, [], 0;
      disk, bucket, phase, slot, wal := w.disk, w.bucket, Booting, w.slot, w.wal;
      trace := earlier;
      new;
      Took(Boot, w);
    }

    /** `ResumeLSN`. */
    method ResumeLSN() returns (last: nat)
      ensures last == Resume(World())
    {
      last := 0;
      if remote {
        var i := 0;
        while i < |segs|
          invariant i <= |segs| && i <= manifestSeq && (forall j | 0 <= j < i :: segs[j].uploaded)
          invariant last == if i == 0 then 0 else segs[i - 1].EndLsn()
        {
          if !segs[i].uploaded || i + 1 > manifestSeq {
            break;
          }
          last := segs[i].EndLsn();
          i := i + 1;
        }
        ConfirmedIs(segs, manifestSeq, i);
      } else if |segs| > 0 {
        last := segs[|segs| - 1].EndLsn();
      }
    }

    /** Writes a line to the open segment's file; the step's part in memory is done already. */
    method Append(r: Rec, full: bool, ghost a: Action, ghost before: World)
      requires Reached(before) && Can(before, a) && Do(before, a) == Machine.Append(World(), r)
      requires disk.manifest == segs
      modifies this
      ensures Valid() && Written(World()) == old(Written(World())) + [r]
      ensures phase == old(phase) && slot == old(slot) && wal == old(wal)
      ensures old(trace) + [a] <= trace
    {
      hide Runs;
      cur := cur + [r];
      disk := disk.(files := disk.files[|segs| := cur]);
      Took(a, before);
      if full {
        Rotate();
      }
    }

    /** Seals the open segment; a bucket problem does not fail the rotation. */
    method Rotate()
      requires Valid()
      modifies this
      ensures Valid() && cur == [] && Recs(disk.manifest) == Written(World()) == old(Written(World()))
      ensures phase == old(phase) && slot == old(slot) && wal == old(wal) && old(trace) <= trace
      ensures remote && old(cur) != [] ==> FirstPending(segs) == |segs| || PutFailed(old(trace), trace)
    {
      hide Runs, PutFailed;
      if cur == [] {
        return;
      }
      ghost var before := World();
      segs := segs + [Segment(cur, false)];
      cur := [];
      disk := disk.(manifest := segs);
      Took(Action.Rotate, before);
      ghost var sealed := trace;
      if remote {
        var due: bool := *;
        var pushed := PushRemote(false, due);
        if !pushed { FailedSince(old(trace), sealed, trace); }
      }
    }

    /** `writeManifest`, one atomic replacement. */
    method WriteManifest()
      requires Reached(World())
      modifies this`disk, this`trace
      ensures Valid() && disk.files == old(disk.files) && trace == old(trace) + [Mark]
    {
      hide Runs;
      ghost var before := World();
      disk := disk.(manifest := segs);
      Took(Mark, before);
    }

    /** What was marked in memory goes to disk; if nothing was, the disk already says the same. */
    method RecordMarks(changed: bool)
      requires Reached(World()) && (!changed ==> disk.manifest == segs)
      modifies this`disk, this`trace
      ensures Valid() && trace == old(trace) + if changed then [Mark] else []
    {
      if changed { WriteManifest(); }
    }

    /** `PutSegment` and the marks that follow it; a failure may leave something behind. */
    method PutSegment(i: nat) returns (ok: bool, ghost step: Action)
      requires Reached(World()) && remote && i == FirstPending(segs) < |segs|
      modifies this`segs, this`bucket, this`trace
      ensures Reached(World()) && trace == old(trace) + [step]
      ensures if ok then step == Upload else step.UploadFails?
      ensures segs == if ok then old(segs)[i := old(segs)[i].(uploaded := true)] else old(segs)
    {
      hide Runs;
      ghost var before := World();
      ok := *;
      if ok {
        var content := if i in disk.files then disk.files[i] else [];
        bucket := bucket.(objects := bucket.objects[i := content]);
        segs := segs[i := segs[i].(uploaded := true)];
        step := Upload;
        Took(step, before);
      } else {
        var anything: bool := *;
        var content: seq<Rec> := *;
        if anything {
          bucket := bucket.(objects := bucket.objects[i := content]);
        }
        step := UploadFails(if anything then Some(content) else None);
        Took(step, before);
      }
    }

    /** One pending segment's turn; a failure ends the round, with the marks made so far recorded. */
    method UploadNext(i: nat, changed: bool, ghost was: Manifest, ghost from: seq<Action>) returns (ok: bool)
      requires Reached(World()) && remote && i == FirstPending(segs) < |segs|
      requires (!changed ==> disk.manifest == segs) && Uploading(was, segs, from, trace, changed)
      modifies this`segs, this`bucket, this`disk, this`trace
      ensures Reached(World())
      ensures segs == if ok then old(segs)[i := old(segs)[i].(uploaded := true)] else old(segs)
      ensures ok ==> Uploading(was, segs, from, trace, true) && from <= trace
      ensures !ok ==> Valid() && UploadRound(was, segs, from, trace, false) && from <= trace
    {
      UploadingMore(was, segs, from, trace, changed, i);
      hide Runs, Reached, Uploading, UploadRound, FirstPending;
      ghost var ups, step := trace, Upload;
      ok, step := PutSegment(i);
      if !ok {
        RecordMarks(changed);
        RoundMade(was, segs, from, ups, changed, [step], trace);
        RoundGrows(was, segs, from, trace, false);
      }
    }

    /** Puts pending segments in order, up to the first that fails, and records how far it came. */
    method UploadSegments() returns (ok: bool)
      requires Valid() && remote
      modifies this`segs, this`bucket, this`disk, this`trace
      ensures Valid() && |segs| == |old(segs)| && SameRecs(segs, old(segs)) && old(trace) <= trace
      ensures ok <==> FirstPending(segs) == |segs|
      ensures UploadRound(old(segs), segs, old(trace), trace, ok)
    {
      assert Uploading(old(segs), segs, old(trace), trace, false) && SameRecs(segs, segs);
      hide Runs, Reached, Do, Can, Uploading, UploadRound, SameRecs;
      var changed, i := false, 0;
      while i < |segs|
        invariant i <= |segs| == |old(segs)| && forall j | 0 <= j < i :: segs[j].uploaded
        invariant SameRecs(segs, old(segs)) && Reached(World())
        invariant !changed ==> disk.manifest == segs
        invariant Uploading(old(segs), segs, old(trace), trace, changed) && old(trace) <= trace
      {
        if !segs[i].uploaded {
          assert FirstPending(segs) == i;
          MarkKeepsRecs(old(segs), segs, i);
          ok := UploadNext(i, changed, old(segs), old(trace));
          if !ok {
            return;
          }
          changed := true;
        }
        i := i + 1;
      }
      ghost var ups := trace;
      RecordMarks(changed);
      RoundMade(old(segs), segs, old(trace), ups, changed, [], trace);
      return true;
    }

    /** `PutManifest`, after the segments it names; a failure may yet have landed. */
    method PutManifest(ready: nat) returns (ok: bool)
      requires Valid() && remote && FirstPending(segs) == |segs| == ready != manifestSeq
      modifies this`bucket, this`manifestSeq, this`trace
      ensures Valid() && |trace| == |old(trace)| + 1 && old(trace) <= trace
      ensures if ok then trace[|old(trace)|] == Action.PutManifest else trace[|old(trace)|].PutManifestFails?
      ensures manifestSeq == if ok then ready else old(manifestSeq)
      ensures ok ==> bucket == old(bucket).(manifest := disk.manifest)
    {
      hide Runs;
      ghost var before := World();
      ok := *;
      if ok {
        bucket := bucket.(manifest := disk.manifest);
        manifestSeq := ready;
        Took(Action.PutManifest, before);
      } else {
        var landed: bool := *;
        bucket := if landed then bucket.(manifest := disk.manifest) else bucket;
        Took(PutManifestFails(landed), before);
      }
    }

    /** Uploads what is pending, then the manifest: at once if forced, else when it is due. */
    method PushRemote(force: bool, due: bool) returns (ok: bool)
      requires Valid()
      modifies this
      ensures Valid() && cur == old(cur) && Recs(disk.manifest) == old(Recs(disk.manifest))
      ensures phase == old(phase) && slot == old(slot) && wal == old(wal) && old(trace) <= trace
      ensures ok && remote ==> FirstPending(segs) == |segs|
      ensures ok && remote && (force || due) ==> Confirms(World())
      ensures !ok ==> remote && PutFailed(old(trace), trace)
      ensures !ok && FirstPending(segs) == |segs| ==> trace[|trace| - 1].PutManifestFails?
    {
      hide Runs, Pending, UploadRound, PutFailed, Reached;
      if !remote {
        return true;
      }
      ghost var was := segs;
      ok := UploadSegments();
      RecsPrefix(segs, was);
      if !ok {
        RoundFailed(was, segs, old(trace), trace);
        return;
      }
      var ready := 0;
      while ready < |segs| && segs[ready].uploaded
        invariant ready <= |segs|
      {
        ready := ready + 1;
      }
      if ready == manifestSeq || (!force && !due) {
        return;
      }
      PutIsLast(old(trace), trace);
      ok := PutManifest(ready);
    }

    /** Shutdown: seal what is open and flush everything, the manifest included. */
    method Close() returns (ok: bool)
      requires Valid()
      modifies this
      ensures Valid() && cur == [] && Recs(disk.manifest) == old(Written(World())) && old(trace) <= trace
      ensures ok ==> Confirms(World())
      ensures !ok ==> remote && PutFailed(old(trace), trace)
    {
      hide Runs, Can, Do, PutFailed;
      Rotate();
      ghost var mid := trace;
      ok := PushRemote(true, true);
      if !ok { FailedSince(old(trace), mid, trace); }
    }

    /** A change from the stream: dropped if the archive has it from before the restart. */
    method Handle(full: bool)
      requires Valid() && Can(World(), Deliver)
      modifies this
      ensures Valid() && slot == old(slot) && wal == old(wal) && old(trace) + [Deliver] <= trace
      ensures phase == old(phase).(next := old(phase).next + 1)
      ensures var e := wal[old(phase).next];
        Written(World()) == old(Written(World())) +
          if Machine.Replayed(old(phase), e) then [] else [Streamed(old(phase).next, e.lsn)]
    {
      hide Runs;
      ghost var before := World();
      var e := wal[phase.next];
      var pos := phase.next;
      var replayed := Replayed(e);
      phase := phase.(next := pos + 1);
      if replayed {
        Took(Deliver, before);
      } else {
        Append(Streamed(pos, e.lsn), full, Deliver, before);
      }
    }

    /** `replayed`, and the message kinds that ask it. */
    method Replayed(e: Event) returns (skip: bool)
      requires phase.Streaming?
      ensures skip == Machine.Replayed(phase, e)
    {
      if e.kind == Truncation {
        return false;
      }
      if phase.skipTo == 0 {
        return false;
      }
      return e.lsn <= phase.skipTo;
    }

    /** The safety valve: past the ceiling, a gap is written and sealed before the slot moves. */
    method Check(over: bool, current: nat)
      requires Valid() && phase.Streaming? && phase.valve.Idle?
      modifies this
      ensures Valid() && phase == old(phase) && wal == old(wal) && old(trace) <= trace
      ensures cur == if over then [] else old(cur)
      ensures Written(World()) == old(Written(World())) + if over then [Gap(phase.acked, current)] else []
      ensures !over ==> World() == old(World()) && trace == old(trace)
      ensures slot >= old(slot)
      ensures slot != old(slot) ==>
        over && slot == current && Gap(phase.acked, current) in Recs(disk.manifest) && cur == []
    {
      hide Runs;
      if !over {
        return;
      }
      ghost var before := World();
      phase := phase.(valve := Opened(phase.acked, current));
      Append(Gap(phase.acked, current), false, OpenValve(current), before);
      Rotate();
      before := World();
      var delivered: bool := *;
      slot := if delivered then Max(slot, current) else slot;
      phase := phase.(valve := Idle);
      Took(MoveSlot(delivered), before);
    }

    /** Acknowledges what is durable; the server may not hear of it. */
    method Acknowledge()
      requires Valid() && phase.Streaming? && phase.valve.Idle?
      modifies this`phase, this`slot, this`trace
      ensures Valid() && old(trace) <= trace
      ensures phase == old(phase).(acked := Max(old(phase).acked, Resume(World())))
      ensures slot == old(slot) || slot == Max(old(slot), phase.acked)
    {
      hide Runs;
      ghost var before := World();
      var durable := phase.acked;
      var resume := ResumeLSN();
      if resume > durable {
        durable := resume;
      }
      var delivered: bool := *;
      slot := if delivered then Max(slot, durable) else slot;
      phase := phase.(acked := durable);
      Took(Ack(delivered), before);
    }

    /** The timer's part of the loop: seal, push, acknowledge what is durable, check the slot. */
    method Status(over: bool, current: nat)
      requires Valid() && phase.Streaming? && phase.valve.Idle?
      modifies this
      ensures Valid() && wal == old(wal) && old(trace) <= trace
      ensures phase.Streaming? && phase.next == old(phase).next && phase.skipTo == old(phase).skipTo
      ensures phase.valve.Idle? && phase.acked >= old(phase).acked && cur == [] && slot >= old(slot)
      ensures Recs(disk.manifest) == Written(World()) ==
        old(Written(World())) + if over then [Gap(phase.acked, current)] else []
      ensures !over ==> phase.acked == Max(old(phase).acked, Resume(World()))
      ensures remote && !over ==> FirstPending(segs) == |segs| || PutFailed(old(trace), trace)
    {
      hide Runs, Can, Do, Reached, PutFailed;
      Rotate();
      ghost var sealed := trace;
      var due: bool := *;
      var pushed := PushRemote(false, due);
      ghost var after := trace;
      Acknowledge();
      if !pushed { FailedBefore(old(trace), sealed, after, trace); }
      assert cur == [];
      Check(over, current);
    }

    /** Start-up push, start position, and streaming from wherever the server begins. */
    method StartStreaming()
      requires Valid() && phase.Booting? && cur == []
      modifies this
      ensures Valid() && wal == old(wal) && slot == old(slot) && old(trace) <= trace
      ensures phase.Streaming? && phase.valve.Idle? && phase.skipTo == Resume(World())
      ensures phase.acked == Max(slot, phase.skipTo)
      ensures remote ==> FirstPending(segs) == |segs| || PutFailed(old(trace), trace)
    {
      hide Runs, PutFailed;
      var due: bool := *;
      var pushed := PushRemote(false, due);
      ghost var after := trace;
      ghost var before := World();
      var resume := ResumeLSN();
      var start := Max(slot, resume);
      var pos: nat :| pos <= |wal| && forall j | 0 <= j < pos :: wal[j].commit <= start;
      phase := Streaming(pos, resume, start, Idle);
      Took(StartStream(pos), before);
      if !pushed { FailedBefore(old(trace), old(trace), after, trace); }
    }

    /** The receive loop. */
    method Run(inputs: seq<Input>)
      requires Valid() && phase.Streaming? && phase.valve.Idle?
      modifies this
      ensures Valid() && phase.Streaming? && old(trace) <= trace
      ensures (wal, phase.next) == Followed(inputs, origin, old(wal), old(phase).next)
    {
      hide Runs;
      ghost var wal0, next0 := wal, phase.next;
      for k := 0 to |inputs|
        invariant Valid() && phase.Streaming? && phase.valve.Idle? && old(trace) <= trace
        invariant (wal, phase.next) == Followed(inputs[..k], origin, wal0, next0)
      {
        assert inputs[..k + 1][..k] == inputs[..k];
        match inputs[k] {
          case Published(ev) =>
            if Publishes(origin, wal, ev) {
              ghost var before := World();
              wal := wal + [ev];
              Took(Commit(ev), before);
            }
          case Message(full) =>
            if phase.next < |wal| {
              Handle(full);
            }
          case Tick(over, current) => Status(over, current);
        }
      }
      assert inputs[..|inputs|] == inputs;
    }

    /** So a kill between any two effects of any of these methods loses nothing. */
    lemma KilledAnywhere(k: nat) returns (mid: World)
      requires Valid() && RowsIncrease(wal) && k <= |trace|
      ensures Runs(Start(remote, origin), trace[..k], mid) && Conserved(mid) && NothingDropped(mid)
      ensures mid.proc.Some? ==> Conserved(Do(mid, Crash))
    {
      hide Conserved, NothingDropped, Do, Can, RowsIncrease, Runs;
      mid := StateAt(Start(remote, origin), trace, World(), k);
      StillIncrease(mid.wal, wal);
      NothingIsLost(remote, origin, trace[..k], mid);
      if mid.proc.Some? {
        CrashKeepsWal(mid);
        RunsSnoc(Start(remote, origin), trace[..k], mid, Crash);
        NothingIsLost(remote, origin, trace[..k] + [Crash], Do(mid, Crash));
      }
    }
  }

  lemma StillIncrease(some: seq<Event>, wal: seq<Event>)
    requires some <= wal && RowsIncrease(wal)
    ensures RowsIncrease(some)
  {
    assert forall i | 0 <= i < |some| :: some[i] == wal[i];
  }

  lemma CrashKeepsWal(w: World)
    requires w.proc.Some?
    ensures Can(w, Crash) && Do(w, Crash).wal == w.wal
  {
  }

  lemma {:induction false} ConfirmedIs(segs: Manifest, manifestSeq: nat, n: nat)
    requires n <= |segs| && n <= manifestSeq && forall j | 0 <= j < n :: segs[j].uploaded
    requires n < |segs| ==> !segs[n].uploaded || n + 1 > manifestSeq
    ensures Confirmed(segs, manifestSeq) == n
    decreases |segs|
  {
    if |segs| > 0 {
      ConfirmedIs(segs[..|segs| - 1], manifestSeq, if n == |segs| then n - 1 else n);
    }
  }

  /** Every step of a run has a state before it, and the stream only grows. */
  lemma {:induction false} StateAt(from: World, actions: seq<Action>, w: World, k: nat) returns (mid: World)
    requires Runs(from, actions, w) && k <= |actions|
    ensures Runs(from, actions[..k], mid) && mid.wal <= w.wal
    decreases |actions|
  {
    if k == |actions| {
      assert actions[..k] == actions;
      mid := w;
    } else {
      var earlier, a := actions[..|actions| - 1], actions[|actions| - 1];
      var last :| Runs(from, earlier, last) && Can(last, a) && w == Do(last, a);
      mid := StateAt(from, earlier, last, k);
      OnlyCommitGrows(last, a);
      assert earlier[..k] == actions[..k];
    }
  }
}
