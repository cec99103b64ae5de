/**
 * The durability protocol of the companion as a machine: PostgreSQL's WAL and
 * slot, the archive on local disk, the bucket, and a process that may be killed
 * between any two steps.
 */
module Machine {
  import opened Options

  /** Truncates are recorded as gaps and bypass the restart filter; the rest do not. */
  datatype Kind = RowChange | Keyless | Truncation

  /** A published change: its own LSN and the LSN of its transaction's commit. */
  datatype Event = Event(lsn: nat, commit: nat, kind: Kind) {
    predicate Filtered() { kind != Truncation }
  }

  /** An archived line: a change of the stream, or the gap left by the safety valve. */
  datatype Rec =
    | Streamed(pos: nat, lsn: nat)
    | Gap(lo: nat, lsn: nat)

  datatype Segment = Segment(recs: seq<Rec>, uploaded: bool) {
    function EndLsn(): nat { if recs == [] then 0 else recs[|recs| - 1].lsn }
  }

  type Manifest = seq<Segment>

  /** Files and objects go by the position of their segment in the manifest. */
  datatype Disk = Disk(manifest: Manifest, files: map<nat, seq<Rec>>)
  datatype Bucket = Bucket(manifest: Manifest, objects: map<nat, seq<Rec>>)

  datatype Valve = Idle | Opened(lo: nat, hi: nat)

  datatype Phase = Booting | Streaming(next: nat, skipTo: nat, acked: nat, valve: Valve)

  /** What the process holds in memory and a crash takes with it. */
  datatype Proc = Proc(segs: Manifest, cur: seq<Rec>, manifestSeq: nat, phase: Phase)

  datatype World = World(
    remote: bool, origin: nat, wal: seq<Event>, slot: nat,
    disk: Disk, bucket: Bucket, proc: Option<Proc>)
  {
    predicate Running() { proc.Some? && proc.value.phase.Streaming? }
  }

  function Start(remote: bool, origin: nat): World {
    World(remote, origin, [], origin, Disk([], map[]), Bucket([], map[]), None)
  }

  function Max(a: nat, b: nat): nat { if a > b then a else b }

  /** How many segments are in the bucket and named by its manifest, from the first on. */
  function Confirmed(segs: Manifest, manifestSeq: nat): (n: nat)
    ensures n <= |segs| && n <= manifestSeq
    ensures forall i | 0 <= i < n :: segs[i].uploaded
    decreases |segs|
  {
    if segs == [] then 0
    else
      var k := |segs| - 1;
      var n := Confirmed(segs[..k], manifestSeq);
      if n == k && segs[k].uploaded && |segs| <= manifestSeq then |segs| else n
  }

  /** `ResumeLSN`: the end of the last durable segment; 0 is "". */
  function ResumeLsn(remote: bool, segs: Manifest, manifestSeq: nat): nat {
    var n := if remote then Confirmed(segs, manifestSeq) else |segs|;
    if n == 0 then 0 else segs[n - 1].EndLsn()
  }

  function Resume(w: World): nat
    requires w.proc.Some?
  {
    ResumeLsn(w.remote, w.proc.value.segs, w.proc.value.manifestSeq)
  }

  /** The first segment the bucket is not known to hold. */
  function FirstPending(segs: Manifest): (i: nat)
    ensures i <= |segs|
    ensures (forall j | 0 <= j < i :: segs[j].uploaded) && (i < |segs| ==> !segs[i].uploaded)
    decreases |segs|
  {
    if segs == [] then 0
    else if !segs[0].uploaded then 0
    else
      var i := FirstPending(segs[1..]);
      assert forall j | 1 <= j < i + 1 :: segs[j] == segs[1..][j - 1];
      i + 1
  }

  datatype Action =
    | Commit(ev: Event)                   // the server commits and publishes a change
    | Boot                                // the process starts and opens the archive
    | StartStream(pos: nat)               // replication starts; the server may resend from earlier
    | Deliver                             // the next change arrives
    | Rotate                              // the open segment is synced, closed and recorded
    | Upload                              // a segment reaches the bucket and is confirmed
    | UploadFails(left: Option<seq<Rec>>) // or does not, perhaps leaving something behind
    | Mark                                // upload marks reach manifest.json
    | PutManifest                         // manifest.json reaches the bucket
    | PutManifestFails(landed: bool)      // or reports that it did not
    | Ack(delivered: bool)                // the status update releases WAL
    | OpenValve(hi: nat)                  // the valve writes its gap record
    | MoveSlot(delivered: bool)           // and, the gap sealed, moves the slot
    | Crash

  function Replayed(p: Phase, e: Event): bool
    requires p.Streaming?
  {
    e.Filtered() && p.skipTo != 0 && e.lsn <= p.skipTo
  }

  predicate Can(w: World, a: Action) {
    match a
    case Commit(ev) =>
      w.origin < ev.lsn < ev.commit && (w.wal == [] || w.wal[|w.wal| - 1].commit <= ev.commit)
    case Boot => w.proc.None?
    case StartStream(pos) =>
      // What committed beyond the start position has to be sent; the rest may be.
      w.proc.Some? && w.proc.value.phase.Booting? && pos <= |w.wal| &&
      forall j | 0 <= j < pos :: w.wal[j].commit <= Max(w.slot, Resume(w))
    case Deliver => w.Running() && w.proc.value.phase.valve.Idle? && w.proc.value.phase.next < |w.wal|
    case Rotate => w.proc.Some? && w.proc.value.cur != []
    case Upload => w.proc.Some? && w.remote && FirstPending(w.proc.value.segs) < |w.proc.value.segs|
    case UploadFails(_) => w.proc.Some? && w.remote && FirstPending(w.proc.value.segs) < |w.proc.value.segs|
    case Mark => w.proc.Some?
    case PutManifest => CanPutManifest(w)
    case PutManifestFails(_) => CanPutManifest(w)
    case Ack(_) => w.Running() && w.proc.value.phase.valve.Idle?
    case OpenValve(_) => w.Running() && w.proc.value.phase.valve.Idle?
    case MoveSlot(_) => w.Running() && w.proc.value.phase.valve.Opened? && w.proc.value.cur == []
    case Crash => w.proc.Some?
  }

  /** Segments first, marks next, the manifest last, and only if it says something new. */
  predicate CanPutManifest(w: World) {
    w.proc.Some? && w.remote &&
    var p := w.proc.value;
    FirstPending(p.segs) == |p.segs| && w.disk.manifest == p.segs && p.manifestSeq != |p.segs|
  }

  /** A line is appended to the open segment's file, which a first line creates anew. */
  function Append(w: World, r: Rec): World
    requires w.proc.Some?
  {
    var p := w.proc.value;
    var cur := p.cur + [r];
    w.(proc := Some(p.(cur := cur)), disk := w.disk.(files := w.disk.files[|p.segs| := cur]))
  }

  function Advance(w: World): World
    requires w.Running()
  {
    var p := w.proc.value;
    w.(proc := Some(p.(phase := p.phase.(next := p.phase.next + 1))))
  }

  function Do(w: World, a: Action): World
    requires Can(w, a)
  {
    match a
    case Commit(ev) => w.(wal := w.wal + [ev])
    case Boot => w.(proc := Some(Proc(w.disk.manifest, [], 0, Booting)))
    case StartStream(pos) =>
      var r := Resume(w);
      w.(proc := Some(w.proc.value.(phase := Streaming(pos, r, Max(w.slot, r), Idle))))
    case Deliver =>
      var phase := w.proc.value.phase;
      var e := w.wal[phase.next];
      if Replayed(phase, e) then Advance(w) else Append(Advance(w), Streamed(phase.next, e.lsn))
    case Rotate =>
      var p := w.proc.value;
      var segs := p.segs + [Segment(p.cur, false)];
      w.(proc := Some(p.(segs := segs, cur := [])), disk := w.disk.(manifest := segs))
    case Upload =>
      var p := w.proc.value;
      var i := FirstPending(p.segs);
      var content := if i in w.disk.files then w.disk.files[i] else [];
      w.(proc := Some(p.(segs := p.segs[i := p.segs[i].(uploaded := true)])),
         bucket := w.bucket.(objects := w.bucket.objects[i := content]))
    case UploadFails(left) =>
      var i := FirstPending(w.proc.value.segs);
      if left.None? then w
      else w.(bucket := w.bucket.(objects := w.bucket.objects[i := left.value]))
    case Mark => w.(disk := w.disk.(manifest := w.proc.value.segs))
    case PutManifest =>
      w.(bucket := w.bucket.(manifest := w.disk.manifest),
         proc := Some(w.proc.value.(manifestSeq := |w.proc.value.segs|)))
    case PutManifestFails(landed) =>
      if landed then w.(bucket := w.bucket.(manifest := w.disk.manifest)) else w
    case Ack(delivered) =>
      var p := w.proc.value;
      var durable := Max(p.phase.acked, Resume(w));
      w.(proc := Some(p.(phase := p.phase.(acked := durable))),
         slot := if delivered then Max(w.slot, durable) else w.slot)
    case OpenValve(hi) =>
      var p := w.proc.value;
      var lo := p.phase.acked;
      Append(w.(proc := Some(p.(phase := p.phase.(valve := Opened(lo, hi))))), Gap(lo, hi))
    case MoveSlot(delivered) =>
      var p := w.proc.value;
      w.(proc := Some(p.(phase := p.phase.(valve := Idle))),
         slot := if delivered then Max(w.slot, p.phase.valve.hi) else w.slot)
    case Crash => w.(proc := None)
  }

  /** A run of the machine. */
  ghost predicate Runs(from: World, actions: seq<Action>, w: World)
    decreases |actions|
  {
    if actions == [] then w == from
    else
      var earlier, a := actions[..|actions| - 1], actions[|actions| - 1];
      exists mid :: Runs(from, earlier, mid) && Can(mid, a) && w == Do(mid, a)
  }

  lemma RunsSnoc(from: World, actions: seq<Action>, w: World, a: Action)
    requires Runs(from, actions, w) && Can(w, a)
    ensures Runs(from, actions + [a], Do(w, a))
  {
    assert (actions + [a])[..|actions|] == actions;
  }

  // ---- What is archived ---------------------------------------------------

  function Recs(segs: Manifest): seq<Rec> {
    if segs == [] then [] else Recs(segs[..|segs| - 1]) + segs[|segs| - 1].recs
  }

  /** Everything the running archive has written, the unsealed tail included. */
  function Written(w: World): seq<Rec> {
    Recs(w.disk.manifest) + if w.proc.Some? then w.proc.value.cur else []
  }

  predicate Holds(recs: seq<Rec>, pos: nat) {
    exists i | 0 <= i < |recs| :: recs[i].Streamed? && recs[i].pos == pos
  }

  predicate InGap(recs: seq<Rec>, lsn: nat) {
    exists i | 0 <= i < |recs| :: recs[i].Gap? && recs[i].lo < lsn <= recs[i].lsn
  }

  /** Durable means in the bucket and named by its manifest, when there is a bucket. */
  function DurableRecs(w: World): seq<Rec> {
    if w.remote then Recs(w.bucket.manifest) else Recs(w.disk.manifest)
  }

  /** No change is gone: it is durable, or the slot still retains it, or a sealed gap says so. */
  predicate Conserved(w: World) {
    forall j | 0 <= j < |w.wal| && w.wal[j].Filtered() ::
      Holds(DurableRecs(w), j) || w.wal[j].lsn > w.slot || InGap(Recs(w.disk.manifest), w.wal[j].lsn)
  }

  /** What the running process has read past is in the archive, or in a gap it recorded. */
  predicate NothingDropped(w: World) {
    w.Running() ==>
      forall j | 0 <= j < w.proc.value.phase.next && j < |w.wal| && w.wal[j].Filtered() ::
        Holds(Written(w), j) || InGap(Written(w), w.wal[j].lsn)
  }

  /** Every row change has a higher LSN than everything published before it. */
  predicate RowsIncrease(wal: seq<Event>) {
    forall i, j | 0 <= i < j < |wal| && wal[j].Filtered() :: wal[i].lsn < wal[j].lsn
  }
}
