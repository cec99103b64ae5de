/** Nothing is lost, and the bucket is always readable, in every run of the machine. */
module Conserve {
  import opened Options
  import opened Machine

  // ---- Local disk, memory and bucket agree ----------------------------------

  predicate SameRecs(a: Manifest, b: Manifest) {
    |a| <= |b| && forall i | 0 <= i < |a| :: a[i].recs == b[i].recs
  }

  predicate MarksWithin(a: Manifest, b: Manifest) {
    forall i | 0 <= i < |a| && a[i].uploaded :: i < |b| && b[i].uploaded
  }

  predicate UploadedFirst(segs: Manifest) {
    forall i, j | 0 <= i < j < |segs| && segs[j].uploaded :: segs[i].uploaded
  }

  predicate Stored(store: map<nat, seq<Rec>>, segs: Manifest) {
    forall i | 0 <= i < |segs| :: i in store && store[i] == segs[i].recs
  }

  predicate UploadedStored(store: map<nat, seq<Rec>>, segs: Manifest) {
    forall i | 0 <= i < |segs| && segs[i].uploaded :: i in store && store[i] == segs[i].recs
  }

  predicate DiskGood(w: World) {
    var m := w.disk.manifest;
    (forall i | 0 <= i < |m| :: m[i].recs != []) && Stored(w.disk.files, m) && UploadedFirst(m) &&
    UploadedStored(w.bucket.objects, m)
  }

  predicate ProcGood(w: World) {
    w.proc.Some? ==>
      var p := w.proc.value;
      |p.segs| == |w.disk.manifest| && SameRecs(p.segs, w.disk.manifest) &&
      MarksWithin(w.disk.manifest, p.segs) && UploadedFirst(p.segs) &&
      UploadedStored(w.bucket.objects, p.segs) && p.manifestSeq <= |w.bucket.manifest| &&
      (p.cur != [] ==> |p.segs| in w.disk.files && w.disk.files[|p.segs|] == p.cur)
  }

  predicate BucketGood(w: World) {
    var b := w.bucket.manifest;
    SameRecs(b, w.disk.manifest) && Stored(w.bucket.objects, b) && MarksWithin(b, w.disk.manifest) &&
    forall i | 0 <= i < |b| :: b[i].uploaded
  }

  predicate Good(w: World) { DiskGood(w) && ProcGood(w) && BucketGood(w) }

  lemma {:induction false} GoodLocally(w: World, a: Action)
    requires Good(w) && Can(w, a)
    requires a.Commit? || a.Boot? || a.StartStream? || a.Ack? || a.MoveSlot? || a.Crash?
    ensures Good(Do(w, a))
  {
    if !a.Boot? {
      hide Resume, Confirmed, UploadedFirst, UploadedStored, MarksWithin, SameRecs, Stored;
    }
  }

  lemma {:induction false} GoodAppend(w: World, a: Action)
    requires Good(w) && Can(w, a)
    requires a.Deliver? || a.OpenValve?
    ensures Good(Do(w, a))
  {
    hide UploadedFirst, UploadedStored, MarksWithin, SameRecs;
  }

  lemma {:induction false} GoodRotate(w: World)
    requires Good(w) && Can(w, Rotate)
    ensures Good(Do(w, Rotate))
  {
  }

  lemma {:induction false} GoodUpload(w: World)
    requires Good(w) && Can(w, Upload)
    ensures Good(Do(w, Upload))
  {
    var w' := Do(w, Upload);
    var segs, i := w.proc.value.segs, FirstPending(w.proc.value.segs);
    var content := segs[i].recs;
    FileOf(w, i);
    hide UploadedFirst, UploadedStored, Stored, SameRecs, MarksWithin, Resume;
    StillStored(w, i, content);
    MarkOne(segs, i, w.bucket.objects[i := content], w.disk.manifest);
  }

  lemma FileOf(w: World, i: nat)
    requires DiskGood(w) && ProcGood(w) && w.proc.Some? && i < |w.proc.value.segs|
    ensures i in w.disk.files && w.disk.files[i] == w.proc.value.segs[i].recs
  {
  }

  /** Marking the first pending segment, once it is in the store. */
  lemma {:induction false} MarkOne(segs: Manifest, i: nat, store: map<nat, seq<Rec>>, m: Manifest)
    requires i == FirstPending(segs) < |segs| && UploadedFirst(segs) && UploadedStored(store, segs)
    requires i in store && store[i] == segs[i].recs
    requires SameRecs(segs, m) && MarksWithin(m, segs)
    ensures var more := segs[i := segs[i].(uploaded := true)];
      UploadedFirst(more) && UploadedStored(store, more) && SameRecs(more, m) && MarksWithin(m, more)
  {
  }

  lemma {:induction false} GoodUploadFails(w: World, left: Option<seq<Rec>>)
    requires Good(w) && Can(w, UploadFails(left))
    ensures Good(Do(w, UploadFails(left)))
  {
    hide UploadedFirst, UploadedStored, Stored, Resume, MarksWithin, SameRecs;
    if left.Some? {
      StillStored(w, FirstPending(w.proc.value.segs), left.value);
    }
  }

  /** Nothing uploaded or named is at the first pending position. */
  lemma {:induction false} StillStored(w: World, i: nat, content: seq<Rec>)
    requires Good(w) && w.proc.Some? && i == FirstPending(w.proc.value.segs) < |w.proc.value.segs|
    ensures var objects := w.bucket.objects[i := content];
      Stored(objects, w.bucket.manifest) && UploadedStored(objects, w.disk.manifest) &&
      UploadedStored(objects, w.proc.value.segs)
  {
    assert i >= |w.bucket.manifest|;
  }

  lemma {:induction false} GoodManifest(w: World, a: Action)
    requires Good(w) && Can(w, a) && (a.Mark? || a.PutManifest? || a.PutManifestFails?)
    ensures Good(Do(w, a))
  {
  }

  lemma {:induction false} GoodStep(w: World, a: Action)
    requires Good(w) && Can(w, a)
    ensures Good(Do(w, a))
  {
    hide Good, Do, Can;
    match a {
      case Deliver => GoodAppend(w, a);
      case OpenValve(_) => GoodAppend(w, a);
      case Rotate => GoodRotate(w);
      case Upload => GoodUpload(w);
      case UploadFails(left) => GoodUploadFails(w, left);
      case Mark => GoodManifest(w, a);
      case PutManifest => GoodManifest(w, a);
      case PutManifestFails(_) => GoodManifest(w, a);
      case _ => GoodLocally(w, a);
    }
  }

  lemma {:induction false} GoodAfter(remote: bool, origin: nat, actions: seq<Action>, w: World)
    requires Runs(Start(remote, origin), actions, w)
    ensures Good(w)
    decreases |actions|
  {
    if actions != [] {
      hide Good, Do, Can;
      var earlier, a := actions[..|actions| - 1], actions[|actions| - 1];
      var mid :| Runs(Start(remote, origin), earlier, mid) && Can(mid, a) && w == Do(mid, a);
      GoodAfter(remote, origin, earlier, mid);
      GoodStep(mid, a);
    }
  }

  /**
   * However uploads fail or are put off: what is uploaded comes first, the bucket's
   * manifest names only objects that are there with the sealed content, and the
   * position acknowledged to PostgreSQL is never past what that manifest covers.
   */
  lemma {:induction false} BucketIsReadable(remote: bool, origin: nat, actions: seq<Action>, w: World)
    requires Runs(Start(remote, origin), actions, w)
    ensures forall i | 0 <= i < |w.bucket.manifest| ::
      i in w.bucket.objects && w.bucket.objects[i] == w.bucket.manifest[i].recs &&
      i < |w.disk.manifest| && w.bucket.manifest[i].recs == w.disk.manifest[i].recs
    ensures w.proc.Some? ==> UploadedFirst(w.proc.value.segs)
    ensures w.proc.Some? && remote && Resume(w) != 0 ==>
      exists k | 0 <= k < |w.bucket.manifest| :: Resume(w) == w.bucket.manifest[k].EndLsn()
  {
    GoodAfter(remote, origin, actions, w);
    RemoteStays(remote, origin, actions, w);
    if w.proc.Some? && remote && Resume(w) != 0 {
      var n := Confirmed(w.proc.value.segs, w.proc.value.manifestSeq);
      assert w.bucket.manifest[n - 1].recs == w.proc.value.segs[n - 1].recs;
    }
  }

  lemma {:induction false} RemoteStays(remote: bool, origin: nat, actions: seq<Action>, w: World)
    requires Runs(Start(remote, origin), actions, w)
    ensures w.remote == remote && w.origin == origin
    decreases |actions|
  {
    if actions != [] {
      var earlier, a := actions[..|actions| - 1], actions[|actions| - 1];
      var mid :| Runs(Start(remote, origin), earlier, mid) && Can(mid, a) && w == Do(mid, a);
      RemoteStays(remote, origin, earlier, mid);
    }
  }

  // ---- What an archive accounts for ------------------------------------------

  /** An LSN beyond everything published so far. */
  predicate Ahead(origin: nat, wal: seq<Event>, x: nat) {
    x > origin && forall i | 0 <= i < |wal| :: wal[i].lsn < x
  }

  /** Every row change up to `upto` is in `held` or `gaps`, even one that commits only later. */
  ghost predicate Covers(origin: nat, wal: seq<Event>, held: seq<Rec>, gaps: seq<Rec>, upto: nat) {
    (forall j | 0 <= j < |wal| && wal[j].Filtered() && wal[j].lsn <= upto ::
      Holds(held, j) || InGap(gaps, wal[j].lsn)) &&
    (forall x: nat | Ahead(origin, wal, x) && x <= upto :: InGap(gaps, x))
  }

  predicate Accounted(wal: seq<Event>, recs: seq<Rec>, next: nat) {
    forall j | 0 <= j < |wal| && j < next && wal[j].Filtered() ::
      Holds(recs, j) || InGap(recs, wal[j].lsn)
  }

  predicate Within(a: seq<Rec>, b: seq<Rec>) {
    forall r | r in a :: r in b
  }

  lemma HoldsWithin(a: seq<Rec>, b: seq<Rec>, pos: nat)
    requires Within(a, b) && Holds(a, pos)
    ensures Holds(b, pos)
  {
    var i :| 0 <= i < |a| && a[i].Streamed? && a[i].pos == pos;
    assert a[i] in b;
  }

  lemma HoldsLast(recs: seq<Rec>, pos: nat, lsn: nat)
    ensures Holds(recs + [Streamed(pos, lsn)], pos)
  {
    assert (recs + [Streamed(pos, lsn)])[|recs|] == Streamed(pos, lsn);
  }

  lemma InThisGap(gaps: seq<Rec>, lo: nat, hi: nat, x: nat)
    requires Gap(lo, hi) in gaps && lo < x <= hi
    ensures InGap(gaps, x)
  {
    var i :| 0 <= i < |gaps| && gaps[i] == Gap(lo, hi);
  }

  lemma WithinItself(a: seq<Rec>)
    ensures Within(a, a)
  {
  }

  lemma InGapWithin(a: seq<Rec>, b: seq<Rec>, lsn: nat)
    requires Within(a, b) && InGap(a, lsn)
    ensures InGap(b, lsn)
  {
    var i :| 0 <= i < |a| && a[i].Gap? && a[i].lo < lsn <= a[i].lsn;
    assert a[i] in b;
  }

  lemma {:induction false} CoversMore(origin: nat, wal: seq<Event>, held: seq<Rec>, gaps: seq<Rec>, upto: nat,
                                      held': seq<Rec>, gaps': seq<Rec>, upto': nat)
    requires Covers(origin, wal, held, gaps, upto) && Within(held, held') && Within(gaps, gaps') && upto' <= upto
    ensures Covers(origin, wal, held', gaps', upto')
  {
    hide Holds, InGap, Ahead, Within;
    forall j | 0 <= j < |wal| && wal[j].Filtered() && wal[j].lsn <= upto'
      ensures Holds(held', j) || InGap(gaps', wal[j].lsn)
    {
      if Holds(held, j) { HoldsWithin(held, held', j); } else { InGapWithin(gaps, gaps', wal[j].lsn); }
    }
    forall x: nat | Ahead(origin, wal, x) && x <= upto'
      ensures InGap(gaps', x)
    {
      InGapWithin(gaps, gaps', x);
    }
  }

  lemma CoversNothing(origin: nat, wal: seq<Event>, held: seq<Rec>, gaps: seq<Rec>)
    requires forall j | 0 <= j < |wal| :: wal[j].lsn > origin
    ensures Covers(origin, wal, held, gaps, 0)
  {
  }

  /** What committed up to a covered position is accounted for. */
  lemma CoversCommitted(origin: nat, wal: seq<Event>, recs: seq<Rec>, upto: nat, next: nat)
    requires Covers(origin, wal, recs, recs, upto)
    requires forall j | 0 <= j < |wal| && j < next :: wal[j].lsn < wal[j].commit <= upto
    ensures Accounted(wal, recs, next)
  {
  }

  lemma AccountedAlso(origin: nat, wal: seq<Event>, recs: seq<Rec>, upto: nat, next: nat)
    requires Accounted(wal, recs, next) && Covers(origin, wal, recs, recs, upto)
    requires next < |wal| && wal[next].lsn <= upto
    ensures Accounted(wal, recs, next + 1)
  {
  }

  /** A change committed later needs no new cover: it is ahead, or in a gap already. */
  lemma {:induction false} CoversAfterCommit(origin: nat, wal: seq<Event>, ev: Event,
                                             held: seq<Rec>, gaps: seq<Rec>, upto: nat)
    requires Covers(origin, wal, held, gaps, upto) && ev.lsn > origin && RowsIncrease(wal + [ev])
    ensures Covers(origin, wal + [ev], held, gaps, upto)
  {
    hide Holds, InGap;
    var wal' := wal + [ev];
    forall j | 0 <= j < |wal'| && wal'[j].Filtered() && wal'[j].lsn <= upto
      ensures Holds(held, j) || InGap(gaps, wal'[j].lsn)
    {
      if j == |wal| {
        assert forall i | 0 <= i < j :: wal'[i] == wal[i] && wal'[i].lsn < wal'[j].lsn;
        assert Ahead(origin, wal, ev.lsn);
      } else {
        assert wal'[j] == wal[j];
      }
    }
    forall x: nat | Ahead(origin, wal', x) && x <= upto
      ensures InGap(gaps, x)
    {
      assert forall i | 0 <= i < |wal| :: wal'[i] == wal[i];
      assert Ahead(origin, wal, x);
    }
  }

  /** Archiving the next change accounts for everything up to it. */
  lemma {:induction false} CoversThrough(origin: nat, wal: seq<Event>, recs: seq<Rec>, next: nat)
    requires next < |wal| && Accounted(wal, recs, next) && RowsIncrease(wal)
    ensures Covers(origin, wal, recs + [Streamed(next, wal[next].lsn)], recs + [Streamed(next, wal[next].lsn)], wal[next].lsn)
  {
    hide Holds, InGap;
    var e := wal[next];
    var more := recs + [Streamed(next, e.lsn)];
    forall j | 0 <= j < |wal| && wal[j].Filtered() && wal[j].lsn <= e.lsn
      ensures Holds(more, j) || InGap(more, wal[j].lsn)
    {
      if j < next {
        if Holds(recs, j) { HoldsWithin(recs, more, j); } else { InGapWithin(recs, more, wal[j].lsn); }
      } else {
        assert j == next;
        HoldsLast(recs, next, e.lsn);
      }
    }
  }

  /** So does a gap that starts where the acknowledged part ends. */
  lemma {:induction false} CoversAcrossGap(origin: nat, wal: seq<Event>, held: seq<Rec>, gaps: seq<Rec>, lo: nat, hi: nat)
    requires Covers(origin, wal, held, gaps, lo) && Gap(lo, hi) in gaps
    ensures Covers(origin, wal, held, gaps, hi)
  {
    hide Holds, InGap;
    forall x: nat | lo < x <= hi
      ensures InGap(gaps, x)
    {
      InThisGap(gaps, lo, hi, x);
    }
  }

  // ---- The invariant -------------------------------------------------------

  lemma {:induction false} RecsPrefix(a: Manifest, b: Manifest)
    requires SameRecs(a, b)
    ensures Recs(a) <= Recs(b) && Within(Recs(a), Recs(b)) && (|a| == |b| ==> Recs(a) == Recs(b))
    decreases |b|
  {
    if |b| > |a| {
      RecsPrefix(a, b[..|b| - 1]);
    } else if |b| > 0 {
      RecsPrefix(a[..|a| - 1], b[..|b| - 1]);
    }
  }

  ghost predicate SegmentsCover(w: World) {
    var m := w.disk.manifest;
    forall k | 0 <= k < |m| :: Covers(w.origin, w.wal, Recs(m[..k + 1]), Recs(m[..k + 1]), m[k].EndLsn())
  }

  ghost predicate OpenCovers(w: World) {
    w.proc.Some? && w.proc.value.cur != [] ==>
      var cur := w.proc.value.cur;
      Covers(w.origin, w.wal, Written(w), Written(w), cur[|cur| - 1].lsn)
  }

  ghost predicate StreamSound(w: World) {
    w.Running() ==>
      var p := w.proc.value.phase;
      p.next <= |w.wal| && Accounted(w.wal, Written(w), p.next) &&
      Covers(w.origin, w.wal, Recs(w.disk.manifest), Recs(w.disk.manifest), p.skipTo) &&
      Covers(w.origin, w.wal, DurableRecs(w), Recs(w.disk.manifest), p.acked) &&
      (p.valve.Opened? ==> p.valve.lo == p.acked && Gap(p.acked, p.valve.hi) in Written(w))
  }

  ghost predicate SlotSound(w: World) {
    Covers(w.origin, w.wal, DurableRecs(w), Recs(w.disk.manifest), w.slot) &&
    forall j | 0 <= j < |w.wal| :: w.origin < w.wal[j].lsn < w.wal[j].commit
  }

  ghost predicate Sound(w: World) {
    SegmentsCover(w) && OpenCovers(w) && StreamSound(w) && SlotSound(w)
  }

  /** Uploads and marks change nothing of that, except that more becomes durable. */
  lemma {:induction false} SoundFrame(w: World, w': World)
    requires Sound(w)
    requires w'.origin == w.origin && w'.wal == w.wal && w'.slot == w.slot
    requires |w'.disk.manifest| == |w.disk.manifest| && SameRecs(w'.disk.manifest, w.disk.manifest)
    requires w'.proc.Some? && w'.proc.value.cur != [] ==> w.proc.Some? && w'.proc.value.cur == w.proc.value.cur
    requires w'.Running() ==>
      w.Running() && w'.proc.value.phase == w.proc.value.phase && w'.proc.value.cur == w.proc.value.cur
    requires Within(DurableRecs(w), DurableRecs(w'))
    ensures Sound(w')
  {
    hide Covers, Accounted, Within, DurableRecs, Recs;
    var m, m' := w.disk.manifest, w'.disk.manifest;
    RecsPrefix(m', m);
    forall k | 0 <= k < |m'|
      ensures Covers(w.origin, w.wal, Recs(m'[..k + 1]), Recs(m'[..k + 1]), m'[k].EndLsn())
    {
      RecsPrefix(m'[..k + 1], m[..k + 1]);
    }
    var all := Recs(m);
    WithinItself(all);
    CoversMore(w.origin, w.wal, DurableRecs(w), all, w.slot, DurableRecs(w'), all, w.slot);
    if w'.Running() {
      var acked := w.proc.value.phase.acked;
      CoversMore(w.origin, w.wal, DurableRecs(w), all, acked, DurableRecs(w'), all, acked);
    }
  }

  lemma {:induction false} SoundQuiet(w: World, a: Action)
    requires Good(w) && Sound(w) && Can(w, a)
    requires a.Boot? || a.Upload? || a.UploadFails? || a.Mark? || a.PutManifest? || a.PutManifestFails? || a.Crash?
    ensures Sound(Do(w, a))
  {
    hide Sound, Recs, Resume, Replayed, DiskGood;
    var w' := Do(w, a);
    RecsPrefix(w.bucket.manifest, w.disk.manifest);
    assert SameRecs(w'.disk.manifest, w.disk.manifest) && SameRecs(w.disk.manifest, w'.disk.manifest);
    RecsPrefix(w.disk.manifest, w'.disk.manifest);
    SoundFrame(w, w');
  }

  lemma SameDurable(w: World, w': World)
    requires w'.remote == w.remote && w'.disk.manifest == w.disk.manifest && w'.bucket == w.bucket
    ensures DurableRecs(w') == DurableRecs(w)
  {
  }

  lemma {:induction false} SoundCommit(w: World, ev: Event)
    requires Sound(w) && Can(w, Commit(ev)) && RowsIncrease(w.wal + [ev])
    ensures Sound(Do(w, Commit(ev)))
  {
    hide Covers, Recs, DurableRecs, RowsIncrease;
    var w' := Do(w, Commit(ev));
    SameDurable(w, w');
    var m, all := w.disk.manifest, Recs(w.disk.manifest);
    forall k | 0 <= k < |m|
      ensures Covers(w.origin, w'.wal, Recs(m[..k + 1]), Recs(m[..k + 1]), m[k].EndLsn())
    {
      CoversAfterCommit(w.origin, w.wal, ev, Recs(m[..k + 1]), Recs(m[..k + 1]), m[k].EndLsn());
    }
    CoversAfterCommit(w.origin, w.wal, ev, DurableRecs(w), all, w.slot);
    if w.proc.Some? && w.proc.value.cur != [] {
      var cur := w.proc.value.cur;
      CoversAfterCommit(w.origin, w.wal, ev, Written(w), Written(w), cur[|cur| - 1].lsn);
    }
    if w.Running() {
      var p := w.proc.value.phase;
      CoversAfterCommit(w.origin, w.wal, ev, all, all, p.skipTo);
      CoversAfterCommit(w.origin, w.wal, ev, DurableRecs(w), all, p.acked);
      assert Accounted(w'.wal, Written(w), p.next);
    }
  }

  /** What `ResumeLSN` returns is covered: by the archive, and durably so. */
  lemma {:induction false} ResumeCovered(w: World)
    requires Good(w) && Sound(w) && w.proc.Some?
    ensures Covers(w.origin, w.wal, Recs(w.disk.manifest), Recs(w.disk.manifest), Resume(w))
    ensures Covers(w.origin, w.wal, DurableRecs(w), Recs(w.disk.manifest), Resume(w))
  {
    hide Covers, DiskGood, OpenCovers, StreamSound, Recs, Within;
    var segs, m := w.proc.value.segs, w.disk.manifest;
    var n := if w.remote then Confirmed(segs, w.proc.value.manifestSeq) else |segs|;
    if n == 0 {
      CoversNothing(w.origin, w.wal, Recs(m), Recs(m));
      CoversNothing(w.origin, w.wal, DurableRecs(w), Recs(m));
    } else {
      assert segs[n - 1].recs == m[n - 1].recs;
      assert SameRecs(m[..n], m);
      RecsPrefix(m[..n], m);
      var part := Recs(m[..n]);
      assert Within(part, DurableRecs(w)) by {
        if w.remote {
          assert SameRecs(m[..n], w.bucket.manifest);
          RecsPrefix(m[..n], w.bucket.manifest);
        }
      }
      CoversMore(w.origin, w.wal, part, part, Resume(w), Recs(m), Recs(m), Resume(w));
      CoversMore(w.origin, w.wal, part, part, Resume(w), DurableRecs(w), Recs(m), Resume(w));
    }
  }

  lemma {:induction false} DurableWithin(w: World)
    requires Good(w)
    ensures var all := Recs(w.disk.manifest);
      Within(DurableRecs(w), all) && Within(all, all) && Within(all, Written(w)) && Within(DurableRecs(w), Written(w))
  {
    hide DiskGood, ProcGood, Recs;
    RecsPrefix(w.bucket.manifest, w.disk.manifest);
  }

  lemma {:induction false} SoundStart(w: World, pos: nat)
    requires Good(w) && Sound(w) && Can(w, StartStream(pos))
    ensures Sound(Do(w, StartStream(pos)))
  {
    hide Good, Covers, Recs, Resume, SegmentsCover, SlotSound, DurableRecs, Within;
    var w' := Do(w, StartStream(pos));
    var all := Recs(w.disk.manifest);
    var start := Max(w.slot, Resume(w));
    SameSealed(w, w');
    DurableWithin(w);
    SlotCovers(w);
    ResumeCovered(w);
    CoversMore(w.origin, w.wal, DurableRecs(w), all, start, all, all, start);
    CoversMore(w.origin, w.wal, all, all, start, Written(w), Written(w), start);
    CoversCommitted(w.origin, w.wal, Written(w), start, pos);
  }

  lemma SlotCovers(w: World)
    requires SlotSound(w)
    ensures Covers(w.origin, w.wal, DurableRecs(w), Recs(w.disk.manifest), w.slot)
    ensures forall j | 0 <= j < |w.wal| :: w.wal[j].lsn < w.wal[j].commit
  {
  }

  lemma SameSealed(w: World, w': World)
    requires w'.origin == w.origin && w'.wal == w.wal && w'.slot == w.slot && w'.remote == w.remote
    requires w'.disk.manifest == w.disk.manifest && w'.bucket == w.bucket
    requires SegmentsCover(w) && SlotSound(w)
    ensures DurableRecs(w') == DurableRecs(w) && SegmentsCover(w') && SlotSound(w')
  {
    hide Covers, Recs;
  }

  lemma {:induction false} SoundDeliver(w: World)
    requires Sound(w) && Can(w, Deliver) && RowsIncrease(w.wal)
    ensures Sound(Do(w, Deliver))
  {
    hide Covers, Recs, SegmentsCover, SlotSound, Holds, InGap, RowsIncrease, DurableRecs;
    var w' := Do(w, Deliver);
    var p := w.proc.value.phase;
    var e := w.wal[p.next];
    SameSealed(w, w');
    var all, now := Written(w), Written(w');
    if Replayed(p, e) {
      assert now == all;
      var sealed := Recs(w.disk.manifest);
      assert Within(sealed, all);
      CoversMore(w.origin, w.wal, sealed, sealed, p.skipTo, all, all, p.skipTo);
      AccountedAlso(w.origin, w.wal, all, p.skipTo, p.next);
    } else {
      assert now == all + [Streamed(p.next, e.lsn)];
      CoversThrough(w.origin, w.wal, all, p.next);
      AccountedThrough(w.wal, all, p.next);
    }
  }

  lemma {:induction false} AccountedThrough(wal: seq<Event>, recs: seq<Rec>, next: nat)
    requires next < |wal| && Accounted(wal, recs, next)
    ensures Accounted(wal, recs + [Streamed(next, wal[next].lsn)], next + 1)
  {
    hide Holds, InGap;
    var more := recs + [Streamed(next, wal[next].lsn)];
    forall j | 0 <= j < |wal| && j < next + 1 && wal[j].Filtered()
      ensures Holds(more, j) || InGap(more, wal[j].lsn)
    {
      if j == next {
        HoldsLast(recs, next, wal[next].lsn);
      } else if Holds(recs, j) {
        HoldsWithin(recs, more, j);
      } else {
        InGapWithin(recs, more, wal[j].lsn);
      }
    }
  }

  lemma {:induction false} RotateShape(w: World)
    requires Good(w) && Can(w, Rotate)
    ensures var m, m' := w.disk.manifest, Do(w, Rotate).disk.manifest;
      |m'| == |m| + 1 && SameRecs(m, m') && m'[|m|].recs == w.proc.value.cur && Recs(m') == Written(w)
  {
    hide DiskGood, BucketGood, Within;
    var m, m' := w.disk.manifest, Do(w, Rotate).disk.manifest;
    RecsPrefix(w.proc.value.segs, m);
    assert m'[..|m|] == w.proc.value.segs;
  }

  lemma {:induction false} SegmentsCoverMore(w: World, w': World)
    requires SegmentsCover(w) && w'.origin == w.origin && w'.wal == w.wal
    requires SameRecs(w.disk.manifest, w'.disk.manifest) && |w'.disk.manifest| == |w.disk.manifest| + 1
    requires var m := w'.disk.manifest; Covers(w.origin, w.wal, Recs(m), Recs(m), m[|m| - 1].EndLsn())
    ensures SegmentsCover(w')
  {
    hide Covers, Recs, Within;
    var m, m' := w.disk.manifest, w'.disk.manifest;
    forall k | 0 <= k < |m'|
      ensures Covers(w.origin, w.wal, Recs(m'[..k + 1]), Recs(m'[..k + 1]), m'[k].EndLsn())
    {
      if k == |m| {
        assert m'[..k + 1] == m';
      } else {
        assert SameRecs(m'[..k + 1], m[..k + 1]);
        RecsPrefix(m'[..k + 1], m[..k + 1]);
      }
    }
  }

  lemma {:induction false} DurableGrows(w: World)
    requires Good(w) && Can(w, Rotate)
    ensures var w' := Do(w, Rotate);
      Within(DurableRecs(w), DurableRecs(w')) && Within(Recs(w.disk.manifest), Recs(w'.disk.manifest))
  {
    hide Good, Recs;
    RotateShape(w);
    RecsPrefix(w.disk.manifest, Do(w, Rotate).disk.manifest);
  }

  lemma {:induction false} SoundRotate(w: World)
    requires Good(w) && Sound(w) && Can(w, Rotate)
    ensures Sound(Do(w, Rotate))
  {
    hide Covers, Recs, Good, SegmentsCover, StreamSound, SlotSound, Within, DurableRecs;
    var w' := Do(w, Rotate);
    RotateShape(w);
    DurableGrows(w);
    SegmentsCoverMore(w, w');
    assert Written(w') == Written(w);
    MoreSealed(w, w');
  }

  /** Sealing the open segment keeps every cover by what is sealed or durable. */
  lemma {:induction false} MoreSealed(w: World, w': World)
    requires StreamSound(w) && SlotSound(w)
    requires w'.origin == w.origin && w'.wal == w.wal && w'.slot == w.slot
    requires Within(DurableRecs(w), DurableRecs(w')) && Within(Recs(w.disk.manifest), Recs(w'.disk.manifest))
    requires Written(w') == Written(w)
    requires w'.Running() ==> w.Running() && w'.proc.value.phase == w.proc.value.phase
    ensures StreamSound(w') && SlotSound(w')
  {
    hide Covers, Accounted, DurableRecs, Recs, Within;
    var d, d', all, all' := DurableRecs(w), DurableRecs(w'), Recs(w.disk.manifest), Recs(w'.disk.manifest);
    CoversMore(w.origin, w.wal, d, all, w.slot, d', all', w.slot);
    if w'.Running() {
      var p := w.proc.value.phase;
      CoversMore(w.origin, w.wal, all, all, p.skipTo, all', all', p.skipTo);
      CoversMore(w.origin, w.wal, d, all, p.acked, d', all', p.acked);
    }
  }

  lemma {:induction false} SoundAck(w: World, delivered: bool)
    requires Good(w) && Sound(w) && Can(w, Ack(delivered))
    ensures Sound(Do(w, Ack(delivered)))
  {
    hide Good, Covers, Accounted, Resume, Recs;
    ResumeCovered(w);
  }

  lemma {:induction false} SoundOpenValve(w: World, hi: nat)
    requires Good(w) && Sound(w) && Can(w, OpenValve(hi))
    ensures Sound(Do(w, OpenValve(hi)))
  {
    hide Covers, Holds, InGap, Recs, DiskGood, Accounted;
    var w' := Do(w, OpenValve(hi));
    var lo := w.proc.value.phase.acked;
    var sealed, all, now := Recs(w.disk.manifest), Written(w), Written(w');
    assert now == all + [Gap(lo, hi)];
    assert Within(all, now) && Within(sealed, now);
    assert now[|all|] == Gap(lo, hi);
    RecsPrefix(w.bucket.manifest, w.disk.manifest);
    assert Within(DurableRecs(w), now);
    CoversMore(w.origin, w.wal, DurableRecs(w), sealed, lo, now, now, lo);
    CoversAcrossGap(w.origin, w.wal, now, now, lo, hi);
    AccountedWithin(w.wal, all, now, w.proc.value.phase.next);
  }

  lemma {:induction false} AccountedWithin(wal: seq<Event>, a: seq<Rec>, b: seq<Rec>, next: nat)
    requires Accounted(wal, a, next) && Within(a, b)
    ensures Accounted(wal, b, next)
  {
    hide Holds, InGap, Within;
    forall j | 0 <= j < |wal| && j < next && wal[j].Filtered()
      ensures Holds(b, j) || InGap(b, wal[j].lsn)
    {
      if Holds(a, j) { HoldsWithin(a, b, j); } else { InGapWithin(a, b, wal[j].lsn); }
    }
  }

  lemma {:induction false} SoundMoveSlot(w: World, delivered: bool)
    requires Sound(w) && Can(w, MoveSlot(delivered))
    ensures Sound(Do(w, MoveSlot(delivered)))
  {
    hide Covers, Holds, InGap, Recs, Accounted;
    var v := w.proc.value.phase.valve;
    var sealed := Recs(w.disk.manifest);
    assert Written(w) == sealed;
    CoversAcrossGap(w.origin, w.wal, DurableRecs(w), sealed, v.lo, v.hi);
  }

  lemma OnlyCommitGrows(w: World, a: Action)
    requires Can(w, a)
    ensures w.wal <= Do(w, a).wal && (!a.Commit? ==> Do(w, a).wal == w.wal)
    ensures RowsIncrease(Do(w, a).wal) ==> RowsIncrease(w.wal)
  {
  }

  lemma {:induction false} SoundStep(w: World, a: Action)
    requires Good(w) && Sound(w) && Can(w, a) && RowsIncrease(Do(w, a).wal)
    ensures Sound(Do(w, a))
  {
    hide Good, Sound, Can;
    match a {
      case Commit(ev) => SoundCommit(w, ev);
      case StartStream(pos) => SoundStart(w, pos);
      case Deliver => OnlyCommitGrows(w, a); SoundDeliver(w);
      case Rotate => SoundRotate(w);
      case Ack(delivered) => SoundAck(w, delivered);
      case OpenValve(hi) => SoundOpenValve(w, hi);
      case MoveSlot(delivered) => SoundMoveSlot(w, delivered);
      case _ => SoundQuiet(w, a);
    }
  }

  lemma {:induction false} SoundAfter(remote: bool, origin: nat, actions: seq<Action>, w: World)
    requires Runs(Start(remote, origin), actions, w) && RowsIncrease(w.wal)
    ensures Sound(w)
    decreases |actions|
  {
    if actions == [] {
      assert Covers(origin, [], [], [], origin);
    } else {
      hide Good, Sound, Do, Can, RowsIncrease;
      var earlier, a := actions[..|actions| - 1], actions[|actions| - 1];
      var mid :| Runs(Start(remote, origin), earlier, mid) && Can(mid, a) && w == Do(mid, a);
      OnlyCommitGrows(mid, a);
      SoundAfter(remote, origin, earlier, mid);
      GoodAfter(remote, origin, earlier, mid);
      SoundStep(mid, a);
    }
  }

  /**
   * Conservation, in every run with a kill possible between any two steps: if row
   * changes are published in LSN order, each one is durable, or beyond the slot, or
   * in a gap sealed before the slot moved; and the restart filter drops none.
   */
  lemma {:induction false} NothingIsLost(remote: bool, origin: nat, actions: seq<Action>, w: World)
    requires Runs(Start(remote, origin), actions, w) && RowsIncrease(w.wal)
    ensures Conserved(w) && NothingDropped(w)
  {
    hide Holds, InGap, RowsIncrease, Runs, DurableRecs, Written;
    SoundAfter(remote, origin, actions, w);
  }
}
