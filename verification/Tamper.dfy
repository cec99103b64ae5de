/** What a seal proves of the rows it covered, and what each action does to its verdict. */
module Tamper {
  import opened Options
  import opened Text
  import opened Sha
  import opened Seals

  /** Ids are bigints, so an id never reaches the length of a digest. */
  predicate Genuine(rows: seq<LogRow>) {
    forall i | 0 <= i < |rows| :: rows[i].id < 0x8000_0000_0000_0000
  }

  /** Every string hashed while folding these rows. */
  ghost function FoldInputs(sha: Hash, rows: seq<LogRow>): iset<string> {
    iset n | 0 <= n < |rows| :: Fold(sha, rows[..n]) + Repr(rows[n])
  }

  lemma FoldShape(sha: Hash, rows: seq<LogRow>)
    requires HexDigests(sha)
    ensures if rows == [] then Fold(sha, rows) == "" else |Fold(sha, rows)| == 64 && NoBar(Fold(sha, rows))
    ensures NoBar(Fold(sha, rows))
  {
  }

  lemma {:induction false} IdIsShort(r: LogRow)
    requires r.id < 0x8000_0000_0000_0000
    ensures |Dec(r.id)| <= 19
  {
    assert Pow10(19) == 10_000_000_000_000_000_000 by {
      assert Pow10(4) == 10_000 && Pow10(8) == 10_000 * Pow10(4) && Pow10(12) == 10_000 * Pow10(8);
      assert Pow10(16) == 10_000 * Pow10(12) && Pow10(19) == 1000 * Pow10(16);
    }
    DecLength(r.id, 19);
  }

  /**
   * Gluing a digest to a row without a separator is still unambiguous: the first
   * row of a span starts with its id, which ends before 64 characters.
   */
  lemma GlueIsUnambiguous(a: string, r: LogRow, b: string, q: LogRow)
    requires a == "" || (|a| == 64 && NoBar(a))
    requires b == "" || (|b| == 64 && NoBar(b))
    requires r.id < 0x8000_0000_0000_0000 && q.id < 0x8000_0000_0000_0000
    requires a + Repr(r) == b + Repr(q)
    ensures a == b && Repr(r) == Repr(q)
  {
    IdIsShort(r);
    IdIsShort(q);
    FrontGlued(a, r);
    FrontGlued(b, q);
    assert |a| == |b|;
    CutFront(a, Repr(r), b, Repr(q));
  }

  lemma FrontGlued(a: string, r: LogRow)
    requires NoBar(a)
    ensures Front(a + Repr(r)) == a + Dec(r.id)
  {
    hide Dec, Rest;
    assert a + Repr(r) == (a + Dec(r.id)) + "|" + Rest(r);
    FrontOfField(a + Dec(r.id), Rest(r));
  }

  /** Equal digests of two non-empty spans: equal last rows, equal digests before them. */
  lemma LastRowDetermined(sha: Hash, a: seq<LogRow>, b: seq<LogRow>)
    requires HexDigests(sha) && Genuine(a) && Genuine(b) && a != [] && b != []
    requires CollisionFree(sha, FoldInputs(sha, a) + FoldInputs(sha, b))
    requires Fold(sha, a) == Fold(sha, b)
    ensures Fold(sha, a[..|a| - 1]) == Fold(sha, b[..|b| - 1]) && Repr(a[|a| - 1]) == Repr(b[|b| - 1])
  {
    hide Repr, HexDigests;
    var m, n := |a| - 1, |b| - 1;
    var x, y := Fold(sha, a[..m]) + Repr(a[m]), Fold(sha, b[..n]) + Repr(b[n]);
    assert x in FoldInputs(sha, a) && y in FoldInputs(sha, b);
    assert sha(x) == sha(y) && x == y;
    FoldShape(sha, a[..m]);
    FoldShape(sha, b[..n]);
    GlueIsUnambiguous(Fold(sha, a[..m]), a[m], Fold(sha, b[..n]), b[n]);
  }

  lemma ReprsSnoc(rows: seq<LogRow>)
    requires rows != []
    ensures Reprs(rows) == Reprs(rows[..|rows| - 1]) + [Repr(rows[|rows| - 1])]
  {
    hide Repr;
  }

  lemma EmptyFold(sha: Hash, rows: seq<LogRow>)
    requires HexDigests(sha)
    ensures Fold(sha, rows) == "" <==> rows == []
  {
    FoldShape(sha, rows);
  }

  /**
   * Equal span hashes mean equal rows, as far as their representations go: same
   * number, same order, same text.
   */
  lemma {:induction false} FoldDetermines(sha: Hash, a: seq<LogRow>, b: seq<LogRow>)
    requires HexDigests(sha) && Genuine(a) && Genuine(b)
    requires CollisionFree(sha, FoldInputs(sha, a) + FoldInputs(sha, b))
    requires Fold(sha, a) == Fold(sha, b)
    ensures Reprs(a) == Reprs(b)
    decreases |a|
  {
    hide Repr, HexDigests, Fold, FoldInputs;
    EmptyFold(sha, a);
    EmptyFold(sha, b);
    if a != [] {
      LastRowDetermined(sha, a, b);
      PrefixInputs(sha, a, |a| - 1);
      PrefixInputs(sha, b, |b| - 1);
      FoldDetermines(sha, a[..|a| - 1], b[..|b| - 1]);
      ReprsSnoc(a);
      ReprsSnoc(b);
    }
  }

  lemma PrefixInputs(sha: Hash, rows: seq<LogRow>, m: nat)
    requires m <= |rows|
    ensures FoldInputs(sha, rows[..m]) <= FoldInputs(sha, rows)
  {
    forall n | 0 <= n < m
      ensures Fold(sha, rows[..m][..n]) + Repr(rows[..m][n]) in FoldInputs(sha, rows)
    {
      assert rows[..m][..n] == rows[..n];
    }
  }

  lemma {:induction false} SameReprsSameFold(sha: Hash, a: seq<LogRow>, b: seq<LogRow>)
    requires Reprs(a) == Reprs(b)
    ensures Fold(sha, a) == Fold(sha, b)
    decreases |a|
  {
    assert |Reprs(a)| == |a| && |Reprs(b)| == |b|;
    if a != [] {
      var m := |a| - 1;
      assert Repr(a[m]) == Reprs(a)[m] == Reprs(b)[m] == Repr(b[m]);
      assert Reprs(a[..m]) == Reprs(a)[..m] == Reprs(b)[..m] == Reprs(b[..m]);
      SameReprsSameFold(sha, a[..m], b[..m]);
    }
  }

  /**
   * Unexplained change is seen.  For a seal whose chain holds, verify() answers
   * "ok" exactly when the span still reads, row for row, as what was sealed, and
   * TAMPERED exactly when it does not and no later loss was recorded over it.
   */
  lemma VerifySeesEveryChange(sha: Hash, h: SealedLog, i: nat, sealedRows: seq<LogRow>)
    requires HexDigests(sha) && i < |h.seals|
    requires var s := h.seals[i];
             var found := Span(h.log, s.fromId, s.toId);
             && s.prev == LastChain(h.seals[..i]) && s.chain == sha(ChainText(s))
             && s.content == Fold(sha, sealedRows) && Genuine(sealedRows) && Genuine(found)
             && CollisionFree(sha, FoldInputs(sha, sealedRows) + FoldInputs(sha, found))
    ensures var s := h.seals[i];
            var same := Reprs(Span(h.log, s.fromId, s.toId)) == Reprs(sealedRows);
            var excused := exists j :: 0 <= j < |h.losses| && Explains(h.losses[j], s);
            VerdictOf(sha, h, i) == if same then Intact else if excused then Explained else Seals.Tampered
  {
    hide HexDigests, ChainText, FoldInputs, Reprs, Span, Fold;
    var s := h.seals[i];
    var found := Span(h.log, s.fromId, s.toId);
    if Fold(sha, found) == s.content {
      FoldDetermines(sha, found, sealedRows);
    } else if Reprs(found) == Reprs(sealedRows) {
      SameReprsSameFold(sha, found, sealedRows);
    }
  }

  lemma JoinedFlat(x: string, a: string, b: string, c: string, d: string, e: string)
    ensures x + "|" + (a + "|" + (b + "|" + (c + "|" + (d + "|" + e)))) == x + "|" + a + "|" + b + "|" + c + "|" + d + "|" + e
  {
  }

  /** A representation is the row's fields in this order, between bars; a missing image is empty. */
  lemma ReprJoins(r: LogRow)
    ensures var was, now := if r.oldRow.Some? then r.oldRow.value else "", if r.newRow.Some? then r.newRow.value else "";
            var redacted := if r.redactedAt.Some? then Dec(r.redactedAt.value) else "";
            Repr(r) == Dec(r.id) + "|" + r.table + "|" + [r.op] + "|" + r.pk + "|" + was + "|" +
                       (now + "|" + r.actor + "|" + r.dbUser + "|" + Dec(r.txid) + "|" + Dec(r.ts) + "|" + redacted)
  {
    hide Dec;
    JoinedFlat(r.newRow.GetOr(""), r.actor, r.dbUser, Dec(r.txid), Dec(r.ts), RedactedText(r.redactedAt));
    JoinedFlat(Dec(r.id), r.table, [r.op], r.pk, r.oldRow.GetOr(""), r.newRow.GetOr("") + "|" + Trail(r));
  }

  /** Representations are all that is sealed: these two rows read the same. */
  lemma DifferentRowsReadTheSame(r: LogRow)
    ensures var a, b := r.(actor := "x|y", dbUser := "z"), r.(actor := "x", dbUser := "y|z");
            a != b && Repr(a) == Repr(b)
  {
    var a, b := r.(actor := "x|y", dbUser := "z"), r.(actor := "x", dbUser := "y|z");
    assert a.actor != b.actor;
    var end := Dec(r.txid) + "|" + (Dec(r.ts) + "|" + RedactedText(r.redactedAt));
    assert "x|y" + "|" + ("z" + "|" + end) == "x" + "|" + ("y|z" + "|" + end);
  }

  /** Text the separator cannot be confused with, and images that are not empty. */
  predicate Plain(r: LogRow) {
    && NoBar(r.table) && r.op != '|' && NoBar(r.pk) && NoBar(r.oldRow.GetOr("")) && NoBar(r.newRow.GetOr(""))
    && NoBar(r.actor) && NoBar(r.dbUser) && r.oldRow != Some("") && r.newRow != Some("")
  }

  lemma TrailDetermines(a: LogRow, b: LogRow)
    requires Plain(a) && Plain(b) && Trail(a) == Trail(b)
    ensures a.actor == b.actor && a.dbUser == b.dbUser && a.txid == b.txid && a.ts == b.ts && a.redactedAt == b.redactedAt
  {
    hide Dec;
    var a3, b3 := RedactedText(a.redactedAt), RedactedText(b.redactedAt);
    var a2, b2 := Dec(a.ts) + "|" + a3, Dec(b.ts) + "|" + b3;
    var a1, b1 := Dec(a.txid) + "|" + a2, Dec(b.txid) + "|" + b2;
    CutField(a.actor, a.dbUser + "|" + a1, b.actor, b.dbUser + "|" + b1);
    CutField(a.dbUser, a1, b.dbUser, b1);
    CutField(Dec(a.txid), a2, Dec(b.txid), b2);
    CutField(Dec(a.ts), a3, Dec(b.ts), b3);
    DecInjective(a.txid, b.txid);
    DecInjective(a.ts, b.ts);
    if a.redactedAt.Some? && b.redactedAt.Some? { DecInjective(a.redactedAt.value, b.redactedAt.value); }
  }

  /** But rows whose free text holds no separator are what they read as. */
  lemma PlainRowIsDetermined(a: LogRow, b: LogRow)
    requires Plain(a) && Plain(b) && Repr(a) == Repr(b)
    ensures a == b
  {
    hide Dec, Trail;
    var a5, b5 := a.newRow.GetOr("") + "|" + Trail(a), b.newRow.GetOr("") + "|" + Trail(b);
    var a4, b4 := a.oldRow.GetOr("") + "|" + a5, b.oldRow.GetOr("") + "|" + b5;
    var a3, b3 := a.pk + "|" + a4, b.pk + "|" + b4;
    var a2, b2 := [a.op] + "|" + a3, [b.op] + "|" + b3;
    CutField(Dec(a.id), a.table + "|" + a2, Dec(b.id), b.table + "|" + b2);
    CutField(a.table, a2, b.table, b2);
    CutField([a.op], a3, [b.op], b3);
    CutField(a.pk, a4, b.pk, b4);
    CutField(a.oldRow.GetOr(""), a5, b.oldRow.GetOr(""), b5);
    CutField(a.newRow.GetOr(""), Trail(a), b.newRow.GetOr(""), Trail(b));
    DecInjective(a.id, b.id);
    assert [a.op][0] == [b.op][0];
    TrailDetermines(a, b);
  }

  /** So equal span hashes over such rows mean the very same rows. */
  lemma FoldDeterminesPlainRows(sha: Hash, a: seq<LogRow>, b: seq<LogRow>)
    requires HexDigests(sha) && Genuine(a) && Genuine(b)
    requires CollisionFree(sha, FoldInputs(sha, a) + FoldInputs(sha, b))
    requires (forall i | 0 <= i < |a| :: Plain(a[i])) && (forall i | 0 <= i < |b| :: Plain(b[i]))
    requires Fold(sha, a) == Fold(sha, b)
    ensures a == b
  {
    FoldDetermines(sha, a, b);
    assert |Reprs(a)| == |a| && |Reprs(b)| == |b|;
    hide HexDigests, FoldInputs, Fold, Repr, Plain;
    forall i | 0 <= i < |a| ensures a[i] == b[i] {
      assert Reprs(a)[i] == Repr(a[i]) && Reprs(b)[i] == Repr(b[i]);
      PlainRowIsDetermined(a[i], b[i]);
    }
  }

  // ---- Progress -----------------------------------------------------------

  /** k calls of seal() on a log nobody writes to. */
  ghost function SealTimes(sha: Hash, h: SealedLog, cap: nat, at: nat, k: nat): SealedLog {
    if k == 0 then h else DoSeal(sha, SealTimes(sha, h, cap, at, k - 1), cap, at)
  }

  function Min(a: int, b: int): int { if a < b then a else b }

  function Max(a: int, b: int): int { if a < b then b else a }

  lemma OneSealAdvances(sha: Hash, h: SealedLog, cap: nat, at: nat)
    requires cap >= 1
    ensures DoSeal(sha, h, cap, at).log == h.log
    ensures LastTo(DoSeal(sha, h, cap, at).seals) == Max(LastTo(h.seals), Min(MaxId(h.log.Keys), LastTo(h.seals) + cap))
  {
    hide MaxId, ChainText, Fold, Span;
  }

  /**
   * Sealing always makes progress: after k calls exactly the ids up to
   * last + k * cap, or all of them, are sealed.  Where the newest sealed rows
   * were purged there is nothing left to seal.
   */
  lemma {:induction false} SealCatchesUp(sha: Hash, h: SealedLog, cap: nat, at: nat, k: nat)
    requires cap >= 1
    ensures SealTimes(sha, h, cap, at, k).log == h.log
    ensures LastTo(SealTimes(sha, h, cap, at, k).seals)
         == Max(LastTo(h.seals), Min(MaxId(h.log.Keys), LastTo(h.seals) + k * cap))
  {
    hide SealTimes, DoSeal, MaxId, Min, Max;
    if k == 0 {
      NoSealTimes(sha, h, cap, at);
    } else {
      SealCatchesUp(sha, h, cap, at, k - 1);
      OneMoreTimes(k, cap);
      OneMoreCall(sha, h, cap, at, k, (k - 1) * cap);
    }
  }

  lemma NoSealTimes(sha: Hash, h: SealedLog, cap: nat, at: nat)
    ensures SealTimes(sha, h, cap, at, 0) == h
    ensures LastTo(h.seals) == Max(LastTo(h.seals), Min(MaxId(h.log.Keys), LastTo(h.seals) + 0 * cap))
  {
    hide MaxId;
  }

  lemma OneMoreCall(sha: Hash, h: SealedLog, cap: nat, at: nat, k: nat, done: nat)
    requires cap >= 1 && k > 0
    requires var before := SealTimes(sha, h, cap, at, k - 1);
             before.log == h.log && LastTo(before.seals) == Max(LastTo(h.seals), Min(MaxId(h.log.Keys), LastTo(h.seals) + done))
    ensures SealTimes(sha, h, cap, at, k).log == h.log
    ensures LastTo(SealTimes(sha, h, cap, at, k).seals)
         == Max(LastTo(h.seals), Min(MaxId(h.log.Keys), LastTo(h.seals) + (done + cap)))
  {
    hide DoSeal, MaxId, Min, Max;
    OneSealAdvances(sha, SealTimes(sha, h, cap, at, k - 1), cap, at);
    OneMoreCap(LastTo(h.seals), MaxId(h.log.Keys), done, cap);
  }

  lemma OneMoreTimes(k: nat, cap: nat)
    requires k > 0
    ensures (k - 1) * cap + cap == k * cap && (k - 1) * cap >= 0
  {
  }

  lemma OneMoreCap(last: nat, top: nat, done: nat, cap: nat)
    ensures var now := Max(last, Min(top, last + done));
            Max(now, Min(top, now + cap)) == Max(last, Min(top, last + (done + cap)))
  {
  }

  /** The calls a backlog takes: over the cap, rounded up. */
  function Calls(backlog: nat, cap: nat): nat
    requires cap >= 1
  {
    (backlog + cap - 1) / cap
  }

  function Backlog(sealed: nat, newest: nat): nat { if newest > sealed then newest - sealed else 0 }

  /** So catching up takes exactly the calls it must. */
  lemma CatchUpCalls(sha: Hash, h: SealedLog, cap: nat, at: nat, k: nat)
    requires cap >= 1
    ensures LastTo(SealTimes(sha, h, cap, at, k).seals) >= MaxId(h.log.Keys) <==>
            k >= Calls(Backlog(LastTo(h.seals), MaxId(h.log.Keys)), cap)
  {
    hide MaxId, SealTimes, DoSeal, Calls;
    SealCatchesUp(sha, h, cap, at, k);
    CeilDiv(Backlog(LastTo(h.seals), MaxId(h.log.Keys)), cap, k);
  }

  lemma CeilDiv(n: nat, d: nat, k: nat)
    requires d >= 1
    ensures k * d >= n <==> k >= Calls(n, d)
  {
    var q := Calls(n, d);
    assert q * d <= n + d - 1 < q * d + d;
    if k >= q { Scaled(q, k, d); } else { Scaled(k, q - 1, d); }
  }

  lemma Scaled(a: int, b: int, d: nat)
    requires a <= b
    ensures a * d <= b * d
  {
  }

  // ---- What one action does to a verdict -----------------------------------

  /** A seal in its place in the chain. */
  ghost predicate Stands(sha: Hash, h: SealedLog, i: nat) {
    i < |h.seals| && h.seals[i].prev == LastChain(h.seals[..i]) && h.seals[i].chain == sha(ChainText(h.seals[i]))
  }

  ghost predicate Excused(h: SealedLog, s: Seal) {
    exists j :: 0 <= j < |h.losses| && Explains(h.losses[j], s)
  }

  ghost predicate Rereads(sha: Hash, h: SealedLog, s: Seal) {
    Fold(sha, Span(h.log, s.fromId, s.toId)) == s.content
  }

  /** Rows that go, or lose their contents, change what a span reads only if the recorded range meets it. */
  lemma LossMeetsSpan(sha: Hash, h: SealedLog, after: SealedLog, ids: set<nat>, at: nat, s: Seal)
    requires forall k | k !in ids :: (k in h.log <==> k in after.log) && (k in h.log ==> after.log[k] == h.log[k])
    requires Rereads(sha, h, s) && !Rereads(sha, after, s)
    ensures Explains(Loss(at, RangeOf(ids)), s) <==> at > s.at
  {
    hide Fold, MinId, MaxId, Rows;
    if !exists k :: k in ids && s.fromId <= k <= s.toId {
      RowsAgree(h.log, after.log, s.fromId, s.toId + 1);
    }
  }

  /**
   * After a purge or an erasure, on any log: a seal that was intact still is exactly
   * if its span reads the same; if not, the loss explains it exactly when its clock
   * reading is later than the seal's, unless an earlier entry does; else it is tampering.
   */
  lemma LossVerdict(sha: Hash, h: SealedLog, a: Action, i: nat)
    requires (a.Remove? || a.Redact?) && Stands(sha, h, i) && Rereads(sha, h, h.seals[i])
    ensures var s, after := h.seals[i], Act(sha, h, a);
      Stands(sha, after, i) && after.seals == h.seals &&
      VerdictOf(sha, after, i) ==
        if Rereads(sha, after, s) then Intact else if a.at > s.at || Excused(h, s) then Explained else Seals.Tampered
  {
    hide Fold, MinId, MaxId, Span, ChainText;
    var s, after := h.seals[i], Act(sha, h, a);
    var l := Loss(a.at, RangeOf(a.ids));
    assert after.losses == h.losses + [l];
    assert Excused(after, s) <==> Excused(h, s) || Explains(l, s) by {
      assert after.losses[|h.losses|] == l;
      assert forall j | 0 <= j < |h.losses| :: after.losses[j] == h.losses[j];
    }
    if !Rereads(sha, after, s) { LossMeetsSpan(sha, h, after, a.ids, a.at, s); }
  }

  /** One row more within a span is one representation more. */
  lemma {:induction false} MoreRows(log: ChangeLog, row: LogRow, lo: nat, end: nat)
    requires row.id !in log
    ensures |Rows(log[row.id := row], lo, end)| == |Rows(log, lo, end)| + if lo <= row.id < end then 1 else 0
    decreases end - lo
  {
    if lo < end { MoreRows(log, row, lo + 1, end); }
  }

  /**
   * After a row is captured under an unused id: a seal that was intact still is exactly
   * if the id is outside its span; if not, only a later ledger entry can explain it.
   */
  lemma CaptureVerdict(sha: Hash, h: SealedLog, row: LogRow, i: nat)
    requires HexDigests(sha) && Stands(sha, h, i) && Rereads(sha, h, h.seals[i]) && row.id !in h.log
    requires var s, log := h.seals[i], h.log[row.id := row];
             var x, y := Span(h.log, s.fromId, s.toId), Span(log, s.fromId, s.toId);
             Genuine(x) && Genuine(y) && CollisionFree(sha, FoldInputs(sha, x) + FoldInputs(sha, y))
    ensures var s, after := h.seals[i], Act(sha, h, Capture(row));
      VerdictOf(sha, after, i) ==
        if !(s.fromId <= row.id <= s.toId) then Intact else if Excused(h, s) then Explained else Seals.Tampered
  {
    hide HexDigests, Fold, Rows, ChainText, FoldInputs, Repr;
    var s, after := h.seals[i], Act(sha, h, Capture(row));
    var x, y := Span(h.log, s.fromId, s.toId), Span(after.log, s.fromId, s.toId);
    MoreRows(h.log, row, s.fromId, s.toId + 1);
    if s.fromId <= row.id <= s.toId {
      assert |Reprs(x)| != |Reprs(y)|;
      if Fold(sha, x) == Fold(sha, y) { FoldDetermines(sha, x, y); }
    } else {
      RowsAgree(h.log, after.log, s.fromId, s.toId + 1);
    }
  }

  // ---- Hypotheses lawful runs need ----------------------------------------

  lemma SpanOfTwo(log: ChangeLog)
    ensures Span(log, 1, 1) == (if 1 in log then [log[1]] else [])
    ensures Span(log, 1, 2) == (if 1 in log then [log[1]] else []) + (if 2 in log then [log[2]] else [])
  {
    assert Rows(log, 2, 2) == [] && Rows(log, 3, 3) == [];
    assert Rows(log, 2, 3) == (if 2 in log then [log[2]] else []) + Rows(log, 3, 3);
  }

  /** The first seal, over a log whose highest id is `top`. */
  lemma FirstSeal(sha: Hash, log: ChangeLog, top: nat, at: nat)
    requires MaxId(log.Keys) == top && 1 <= top <= 10
    ensures DoSeal(sha, EMPTY.(log := log), 10, at)
         == SealedLog(log, [SealOver(sha, EMPTY.(log := log), 1, top, at)], [])
  {
    hide SealOver, MaxId;
  }

  /** A row sealed and purged within one clock reading: an honest run that verify() calls tampering. */
  lemma SameInstantLooksTampered(sha: Hash, row: LogRow, at: nat)
    requires HexDigests(sha) && row.id == 1
    ensures var sealed := DoSeal(sha, EMPTY.(log := map[1 := row]), 10, at);
            var purged := Act(sha, sealed, Remove({1}, at));
            |purged.seals| == 1 && VerdictOf(sha, purged, 0) == Seals.Tampered
  {
    var log := map[1 := row];
    assert log.Keys == {1} && MaxId(log.Keys) == 1;
    FirstSeal(sha, log, 1, at);
    var purged := Act(sha, DoSeal(sha, EMPTY.(log := log), 10, at), Remove({1}, at));
    hide DoSeal, ChainText, Span;
    SpanOfTwo(log);
    SpanOfTwo(purged.log);
    FoldShape(sha, [row]);
    assert purged.seals[..0] == [] && purged.losses == [Loss(at, RangeOf({1}))];
  }

  lemma SealOverShape(sha: Hash, h: SealedLog, lo: nat, hi: nat, at: nat)
    ensures var s := SealOver(sha, h, lo, hi, at);
            && s.fromId == lo && s.toId == hi && s.at == at && s.prev == LastChain(h.seals)
            && s.content == Fold(sha, Span(h.log, lo, hi)) && s.chain == sha(ChainText(s))
  {
  }

  lemma LateRowIsSeen(sha: Hash, early: LogRow, late: LogRow, at: nat, before: SealedLog, after: SealedLog)
    requires HexDigests(sha) && late.id == 1 && early.id == 2
    requires CollisionFree(sha, FoldInputs(sha, [early]) + FoldInputs(sha, [late, early]))
    requires before.log == map[2 := early] && before.seals == [] && after.losses == []
    requires after.seals == [SealOver(sha, before, 1, 2, at)] && after.log == map[2 := early, 1 := late]
    ensures VerdictOf(sha, after, 0) == Seals.Tampered
  {
    hide FoldInputs, CollisionFree, Repr, VerdictOf, ChainText, Fold, SealOver, HexDigests;
    SealOverShape(sha, before, 1, 2, at);
    assert |Reprs([early])| == 1 && |Reprs([late, early])| == 2;
    hide Reprs;
    SpanOfTwo(before.log);
    SpanOfTwo(after.log);
    hide Span;
    assert Span(after.log, 1, 2) == [late, early] && Span(before.log, 1, 2) == [early];
    assert after.seals[..0] == [] && Genuine([early]) && Genuine([late, early]);
    VerifySeesEveryChange(sha, after, 0, [early]);
  }

  /** A lower id committing after a seal: an honest run that verify() calls tampering. */
  lemma LateIdLooksTampered(sha: Hash, early: LogRow, late: LogRow, at: nat)
    requires HexDigests(sha) && late.id == 1 && early.id == 2
    requires CollisionFree(sha, FoldInputs(sha, [early]) + FoldInputs(sha, [late, early]))
    ensures var sealed := DoSeal(sha, EMPTY.(log := map[2 := early]), 10, at);
            var after := Act(sha, sealed, Capture(late));
            |after.seals| == 1 && VerdictOf(sha, after, 0) == Seals.Tampered
  {
    hide SealOver, VerdictOf, FoldInputs, CollisionFree, HexDigests;
    var log := map[2 := early];
    assert log.Keys == {2} && MaxId(log.Keys) == 2;
    FirstSeal(sha, log, 2, at);
    hide DoSeal, MaxId;
    var after := Act(sha, DoSeal(sha, EMPTY.(log := log), 10, at), Capture(late));
    LateRowIsSeen(sha, early, late, at, EMPTY.(log := log), after);
  }
}
