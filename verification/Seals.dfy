/** The seal chain over the change log, and the ledgers of lawful loss. */
module Seals {
  import opened Options
  import opened Text
  import opened Sha

  /** One row of volvra.change_log, values rendered as text. */
  datatype LogRow = LogRow(
    id: nat, table: string, op: char, pk: string, oldRow: Option<string>, newRow: Option<string>,
    actor: string, dbUser: string, txid: nat, ts: nat, redactedAt: Option<nat>)

  function RedactedText(at: Option<nat>): string { if at.Some? then Dec(at.value) else "" }

  /** The end of `_row_repr`: who, in which transaction, when, and whether it was redacted. */
  function Trail(r: LogRow): string {
    r.actor + "|" + (r.dbUser + "|" + (Dec(r.txid) + "|" + (Dec(r.ts) + "|" + RedactedText(r.redactedAt))))
  }

  /** `_row_repr`: every field but the id. */
  function Rest(r: LogRow): string {
    r.table + "|" + ([r.op] + "|" + (r.pk + "|" + (r.oldRow.GetOr("") + "|" + (r.newRow.GetOr("") + "|" + Trail(r)))))
  }

  /** `_row_repr`. */
  function Repr(r: LogRow): string {
    Dec(r.id) + "|" + Rest(r)
  }

  function Reprs(rows: seq<LogRow>): seq<string> {
    seq(|rows|, i requires 0 <= i < |rows| => Repr(rows[i]))
  }

  type ChangeLog = map<nat, LogRow>

  /** The rows with ids from lo up to, not including, end, in id order. */
  function Rows(log: ChangeLog, lo: nat, end: nat): (rows: seq<LogRow>)
    decreases end - lo
  {
    if lo >= end then []
    else (if lo in log then [log[lo]] else []) + Rows(log, lo + 1, end)
  }

  /** The rows of a span, both ends included. */
  function Span(log: ChangeLog, lo: nat, hi: nat): seq<LogRow> {
    Rows(log, lo, hi + 1)
  }

  /** `_hash_span`: folded row by row, the running digest glued to the next row. */
  function Fold(sha: Hash, rows: seq<LogRow>): string {
    if rows == [] then "" else sha(Fold(sha, rows[..|rows| - 1]) + Repr(rows[|rows| - 1]))
  }

  datatype Seal = Seal(at: nat, fromId: nat, toId: nat, count: nat, content: string, prev: Option<string>, chain: string)

  /** A retention_log or erasure_log entry; an empty partition dropped leaves no range. */
  datatype Loss = Loss(at: nat, range: Option<(nat, nat)>)

  datatype SealedLog = SealedLog(log: ChangeLog, seals: seq<Seal>, losses: seq<Loss>)

  /** What a seal's chain_hash is the digest of. */
  function ChainText(s: Seal): string {
    s.prev.GetOr("") + "|" + (s.content + "|" + (Dec(s.fromId) + "|" + (Dec(s.toId) + "|" + Dec(s.count))))
  }

  function LastTo(seals: seq<Seal>): nat {
    if seals == [] then 0 else seals[|seals| - 1].toId
  }

  function LastChain(seals: seq<Seal>): Option<string> {
    if seals == [] then None else Some(seals[|seals| - 1].chain)
  }

  ghost function MaxId(ids: set<nat>): (m: nat)
    ensures forall i | i in ids :: i <= m
    ensures if ids == {} then m == 0 else m in ids
  {
    if ids == {} then 0
    else
      var i :| i in ids;
      assert ids == ids - {i} + {i};
      var m := MaxId(ids - {i});
      if m > i then m else i
  }

  /** The seal over a span of the log as it stands. */
  function SealOver(sha: Hash, h: SealedLog, lo: nat, hi: nat, at: nat): Seal {
    var rows := Span(h.log, lo, hi);
    var s := Seal(at, lo, hi, |rows|, Fold(sha, rows), LastChain(h.seals), "");
    s.(chain := sha(ChainText(s)))
  }

  /** `seal()`: the next batch of at most `cap` ids, or nothing when all is sealed. */
  ghost function DoSeal(sha: Hash, h: SealedLog, cap: nat, at: nat): SealedLog {
    var lo, top := LastTo(h.seals) + 1, MaxId(h.log.Keys);
    if top < lo then h
    else
      var hi := if top - lo + 1 > cap then lo + cap - 1 else top;
      if hi < lo then h else h.(seals := h.seals + [SealOver(sha, h, lo, hi, at)])
  }

  datatype Verdict = Intact | Explained | Tampered | ChainBroken | SealForged

  /** Only a loss recorded after a seal, over ids it covers, can account for a difference. */
  predicate Explains(l: Loss, s: Seal) {
    l.range.Some? && l.at > s.at && l.range.value.0 <= s.toId && l.range.value.1 >= s.fromId
  }

  /** `verify()`, for one seal. */
  function VerdictOf(sha: Hash, h: SealedLog, i: nat): Verdict
    requires i < |h.seals|
  {
    var s := h.seals[i];
    if s.prev != LastChain(h.seals[..i]) then ChainBroken
    else if sha(ChainText(s)) != s.chain then SealForged
    else if Fold(sha, Span(h.log, s.fromId, s.toId)) == s.content then Intact
    else if exists j :: 0 <= j < |h.losses| && Explains(h.losses[j], s) then Explained
    else Tampered
  }

  // ---- Lawful runs -------------------------------------------------------

  /** What may lawfully happen to the history, one statement at a time. */
  datatype Action =
    | Capture(row: LogRow)
    | SealBatch(cap: nat, at: nat)
    | Remove(ids: set<nat>, at: nat)       // purge, or forget(hard => true): rows go, the range is recorded
    | Redact(ids: set<nat>, at: nat)       // forget(): contents go, the range is recorded

  ghost function MinId(ids: set<nat>): (m: nat)
    ensures forall i | i in ids :: m <= i
    ensures ids != {} ==> m in ids
  {
    if ids == {} then 0
    else
      var i :| i in ids;
      assert ids == ids - {i} + {i};
      var rest := ids - {i};
      if rest == {} then i else if MinId(rest) < i then MinId(rest) else i
  }

  ghost function RangeOf(ids: set<nat>): Option<(nat, nat)> {
    if ids == {} then None else Some((MinId(ids), MaxId(ids)))
  }

  function Redacted(r: LogRow, at: nat): LogRow {
    if r.redactedAt.Some? then r
    else r.(oldRow := None, newRow := None, actor := "erased", redactedAt := Some(at))
  }

  ghost function Act(sha: Hash, h: SealedLog, a: Action): SealedLog {
    match a
    case Capture(row) => h.(log := h.log[row.id := row])
    case SealBatch(cap, at) => DoSeal(sha, h, cap, at)
    case Remove(ids, at) =>
      h.(log := h.log - ids, losses := h.losses + [Loss(at, RangeOf(ids))])
    case Redact(ids, at) =>
      h.(log := map i | i in h.log :: if i in ids then Redacted(h.log[i], at) else h.log[i],
         losses := h.losses + [Loss(at, RangeOf(ids))])
  }

  /**
   * The hypotheses a lawful run needs: ids are captured above everything already
   * sealed, and the clock has moved on between a seal and a later recorded loss.
   */
  ghost predicate Allowed(h: SealedLog, a: Action) {
    match a
    case Capture(row) => row.id > LastTo(h.seals) && row.id !in h.log
    case SealBatch(cap, at) => cap >= 1
    case Remove(ids, at) => ids <= h.log.Keys && forall s | s in h.seals :: at > s.at
    case Redact(ids, at) => ids <= h.log.Keys && forall s | s in h.seals :: at > s.at
  }

  const EMPTY := SealedLog(map[], [], [])

  ghost predicate Lawful(sha: Hash, actions: seq<Action>, h: SealedLog)
    decreases |actions|
  {
    if actions == [] then h == EMPTY
    else
      var earlier, a := actions[..|actions| - 1], actions[|actions| - 1];
      exists before :: Lawful(sha, earlier, before) && Allowed(before, a) && h == Act(sha, before, a)
  }

  /** Seal i covers the ids right after seal i - 1 and is chained to it. */
  ghost predicate Linked(sha: Hash, seals: seq<Seal>, i: nat)
    requires i < |seals|
  {
    var s := seals[i];
    s.fromId == LastTo(seals[..i]) + 1 && s.fromId <= s.toId &&
    s.prev == LastChain(seals[..i]) && s.chain == sha(ChainText(s))
  }

  ghost predicate Accounted(sha: Hash, h: SealedLog, s: Seal) {
    Fold(sha, Span(h.log, s.fromId, s.toId)) == s.content ||
    exists j :: 0 <= j < |h.losses| && Explains(h.losses[j], s)
  }

  /** Spans are disjoint, contiguous and cover ids 1 to LastTo; every difference is accounted for. */
  ghost predicate Sound(sha: Hash, h: SealedLog) {
    && (forall i | 0 <= i < |h.seals| :: Linked(sha, h.seals, i))
    && (forall i | 0 <= i < |h.seals| :: Accounted(sha, h, h.seals[i]))
  }

  lemma {:induction false} LinkedBounds(sha: Hash, seals: seq<Seal>, i: nat)
    requires forall k | 0 <= k < |seals| :: Linked(sha, seals, k)
    requires i < |seals|
    ensures seals[i].toId <= LastTo(seals)
    decreases |seals| - i
  {
    if i < |seals| - 1 {
      assert Linked(sha, seals, i + 1);
      assert seals[..i + 1][i] == seals[i];
      LinkedBounds(sha, seals, i + 1);
    }
  }

  /** Logs that agree on a span of ids have the same rows there. */
  lemma {:induction false} RowsAgree(a: ChangeLog, b: ChangeLog, lo: nat, end: nat)
    requires forall i | lo <= i < end :: (i in a <==> i in b) && (i in a ==> a[i] == b[i])
    ensures Rows(a, lo, end) == Rows(b, lo, end)
    decreases end - lo
  {
    if lo < end { RowsAgree(a, b, lo + 1, end); }
  }

  lemma LossAccounts(sha: Hash, h: SealedLog, after: SealedLog, ids: set<nat>, at: nat, s: Seal)
    requires Accounted(sha, h, s) && ids <= h.log.Keys && at > s.at && s.fromId <= s.toId
    requires after.losses == h.losses + [Loss(at, RangeOf(ids))]
    requires forall i | i !in ids :: (i in h.log <==> i in after.log) && (i in h.log ==> after.log[i] == h.log[i])
    ensures Accounted(sha, after, s)
  {
    hide Fold, MinId, MaxId, Rows;
    var l := Loss(at, RangeOf(ids));
    assert after.losses[|h.losses|] == l;
    if exists i :: i in ids && s.fromId <= i <= s.toId {
      var i :| i in ids && s.fromId <= i <= s.toId;
      assert Explains(l, s);
    } else {
      RowsAgree(h.log, after.log, s.fromId, s.toId + 1);
      if !(Fold(sha, Span(h.log, s.fromId, s.toId)) == s.content) {
        var j :| 0 <= j < |h.losses| && Explains(h.losses[j], s);
        assert after.losses[j] == h.losses[j];
      }
    }
  }

  lemma CaptureAccounts(sha: Hash, h: SealedLog, row: LogRow, s: Seal)
    requires Accounted(sha, h, s) && s.toId < row.id
    ensures Accounted(sha, h.(log := h.log[row.id := row]), s)
  {
    RowsAgree(h.log, h.log[row.id := row], s.fromId, s.toId + 1);
  }

  lemma SealKeepsSound(sha: Hash, h: SealedLog, cap: nat, at: nat)
    requires Sound(sha, h)
    ensures Sound(sha, DoSeal(sha, h, cap, at))
  {
    var after := DoSeal(sha, h, cap, at);
    if after != h {
      var n := |h.seals|;
      assert after.seals[..n] == h.seals;
      assert Linked(sha, after.seals, n) && Accounted(sha, after, after.seals[n]);
      forall i | 0 <= i < n ensures Linked(sha, after.seals, i) && Accounted(sha, after, after.seals[i]) {
        assert after.seals[..i] == h.seals[..i];
        assert Linked(sha, h.seals, i) && Accounted(sha, h, h.seals[i]);
      }
    }
  }

  lemma ActKeepsSound(sha: Hash, h: SealedLog, a: Action)
    requires Sound(sha, h) && Allowed(h, a)
    ensures Sound(sha, Act(sha, h, a))
  {
    hide Accounted;
    match a
    case SealBatch(cap, at) => SealKeepsSound(sha, h, cap, at);
    case Capture(row) =>
      forall i | 0 <= i < |h.seals| ensures Accounted(sha, Act(sha, h, a), h.seals[i]) {
        LinkedBounds(sha, h.seals, i);
        CaptureAccounts(sha, h, row, h.seals[i]);
      }
    case Remove(ids, at) =>
      forall i | 0 <= i < |h.seals| ensures Accounted(sha, Act(sha, h, a), h.seals[i]) {
        assert Linked(sha, h.seals, i);
        LossAccounts(sha, h, Act(sha, h, a), ids, at, h.seals[i]);
      }
    case Redact(ids, at) =>
      forall i | 0 <= i < |h.seals| ensures Accounted(sha, Act(sha, h, a), h.seals[i]) {
        assert Linked(sha, h.seals, i);
        LossAccounts(sha, h, Act(sha, h, a), ids, at, h.seals[i]);
      }
  }

  /**
   * Lawful runs never look like tampering: over any interleaving of capture,
   * seal, purge and forget, verify() reports every seal intact or changed by a
   * recorded loss, and the seals cover ids 1 to the last one without overlap.
   */
  lemma {:induction false} LawfulNeverTampering(sha: Hash, actions: seq<Action>, h: SealedLog)
    requires Lawful(sha, actions, h)
    ensures Sound(sha, h)
    ensures forall i | 0 <= i < |h.seals| :: VerdictOf(sha, h, i) in {Intact, Explained}
    decreases |actions|
  {
    if actions != [] {
      var earlier, a := actions[..|actions| - 1], actions[|actions| - 1];
      var before :| Lawful(sha, earlier, before) && Allowed(before, a) && h == Act(sha, before, a);
      LawfulNeverTampering(sha, earlier, before);
      ActKeepsSound(sha, before, a);
    }
    SoundVerdicts(sha, h);
  }

  lemma SoundVerdicts(sha: Hash, h: SealedLog)
    requires Sound(sha, h)
    ensures forall i | 0 <= i < |h.seals| :: VerdictOf(sha, h, i) in {Intact, Explained}
  {
    forall i | 0 <= i < |h.seals| ensures VerdictOf(sha, h, i) in {Intact, Explained} {
      assert Linked(sha, h.seals, i) && Accounted(sha, h, h.seals[i]);
    }
  }
}
