/** The sealed change log, updated in place by seal, purge and forget, and read by verify. */
module SealStores {
  import opened Options
  import opened Sha
  import opened Seals
  import opened Chain

  /** The rows retention is due to remove from one table. */
  function Expired(log: ChangeLog, table: string, cutoff: nat): set<nat> {
    set i | i in log && log[i].table == table && log[i].ts < cutoff
  }

  /** The rows of one partition of the log. */
  function InPartition(log: ChangeLog, lower: nat, upper: nat): set<nat> {
    set i | i in log && lower <= log[i].ts < upper
  }

  function OlderThan(log: ChangeLog, cutoff: nat): set<nat> {
    set i | i in log && log[i].ts < cutoff
  }

  /** A subject's rows. */
  function Matching(log: ChangeLog, table: string, subject: string -> bool): set<nat> {
    set i | i in log && log[i].table == table && subject(log[i].pk)
  }

  lemma {:induction false} RowsSnoc(log: ChangeLog, lo: nat, end: nat)
    requires lo <= end
    ensures Rows(log, lo, end + 1) == Rows(log, lo, end) + if end in log then [log[end]] else []
    decreases end - lo
  {
    if lo < end {
      RowsSnoc(log, lo + 1, end);
    } else {
      assert Rows(log, lo + 1, end + 1) == [];
    }
  }

  lemma NoRows(sha: Hash, log: ChangeLog, lo: nat, end: nat)
    ensures Rows(log, lo, lo) == [] && (lo >= end ==> Rows(log, lo, end) == []) && Fold(sha, []) == ""
  {
  }

  lemma FoldSnoc(sha: Hash, rows: seq<LogRow>, r: LogRow)
    ensures Fold(sha, rows + [r]) == sha(Fold(sha, rows) + Repr(r))
  {
    hide Repr;
    assert (rows + [r])[..|rows|] == rows;
  }

  lemma MaxIsUnique(ids: set<nat>, m: nat)
    requires m in ids && forall i | i in ids :: i <= m
    ensures MaxId(ids) == m
  {
  }

  lemma MinIsUnique(ids: set<nat>, m: nat)
    requires m in ids && forall i | i in ids :: m <= i
    ensures MinId(ids) == m
  {
  }

  lemma {:induction false} RowsCount(log: ChangeLog, lo: nat, end: nat)
    ensures |Rows(log, lo, end)| == |set i | i in log && lo <= i < end|
    decreases end - lo
  {
    var ids := set i | i in log && lo <= i < end;
    if lo < end {
      RowsCount(log, lo + 1, end);
      var rest := set i | i in log && lo + 1 <= i < end;
      assert ids == rest + if lo in log then {lo} else {};
    } else {
      assert ids == {};
    }
  }

  lemma SpanCount(log: ChangeLog, lo: nat, hi: nat)
    ensures |Span(log, lo, hi)| == |set i | i in log && lo <= i <= hi|
  {
    RowsCount(log, lo, hi + 1);
    assert (set i | i in log && lo <= i < hi + 1) == set i | i in log && lo <= i <= hi;
  }

  lemma TextLacksChain(s: Seal, chain: string)
    ensures ChainText(s.(chain := chain)) == ChainText(s)
  {
  }

  lemma NewSealIsIntact(sha: Hash, h: SealedLog)
    requires h.seals != []
    requires var n := |h.seals| - 1;
             var s := h.seals[n];
             s.prev == LastChain(h.seals[..n]) && s.chain == sha(ChainText(s)) && s.content == Fold(sha, Span(h.log, s.fromId, s.toId))
    ensures VerdictOf(sha, h, |h.seals| - 1) == Intact
  {
  }

  predicate Hits(r: LogRow, table: string, subject: string -> bool) {
    r.table == table && subject(r.pk)
  }

  /** A subject's rows are gone; the others are as they were. */
  predicate Gone(was: ChangeLog, now: ChangeLog, table: string, subject: string -> bool) {
    && (forall i | i in was :: i in now <==> !Hits(was[i], table, subject))
    && forall i | i in now :: i in was && now[i] == was[i]
  }

  /** What is left of a row: that something happened to it, and when. */
  function Erased(r: LogRow, at: nat): LogRow {
    LogRow(r.id, r.table, r.op, r.pk, None, None, "erased", r.dbUser, r.txid, r.ts, Some(at))
  }

  /** A subject's rows hold no contents and no author any more; the others, and those erased before, are as they were. */
  predicate Blanked(was: ChangeLog, now: ChangeLog, table: string, subject: string -> bool, at: nat) {
    && now.Keys == was.Keys
    && (forall i | i in was && Hits(was[i], table, subject) && was[i].redactedAt == None :: now[i] == Erased(was[i], at))
    && (forall i | i in was && !(Hits(was[i], table, subject) && was[i].redactedAt == None) :: now[i] == was[i])
  }

  /** The least and the greatest id of a subject's rows. */
  predicate Covers(log: ChangeLog, table: string, subject: string -> bool, range: (nat, nat)) {
    && range.0 in log && Hits(log[range.0], table, subject) && range.1 in log && Hits(log[range.1], table, subject)
    && forall i | i in log && Hits(log[i], table, subject) :: range.0 <= i <= range.1
  }

  /** No row marked as redacted still has an image or a name. */
  predicate Cleared(log: ChangeLog) {
    forall i | i in log && log[i].redactedAt.Some? ::
      log[i].oldRow == None && log[i].newRow == None && log[i].actor == "erased"
  }

  predicate NothingPersonal(log: ChangeLog, table: string, subject: string -> bool) {
    forall i | i in log && Hits(log[i], table, subject) ::
      log[i].oldRow == None && log[i].newRow == None && log[i].actor == "erased"
  }

  lemma RangeCovers(log: ChangeLog, table: string, subject: string -> bool)
    requires Matching(log, table, subject) != {}
    ensures var range := RangeOf(Matching(log, table, subject)); range.Some? && Covers(log, table, subject, range.value)
  {
    hide MinId, MaxId;
    assert forall i | i in log && Hits(log[i], table, subject) :: i in Matching(log, table, subject);
  }

  lemma ErasesAll(log: ChangeLog, table: string, subject: string -> bool, at: nat)
    ensures var ids := Matching(log, table, subject);
            var kept, blank := log - ids, map i | i in log :: if i in ids then Redacted(log[i], at) else log[i];
            && ids == (set i | i in log && Hits(log[i], table, subject))
            && Gone(log, kept, table, subject) && Blanked(log, blank, table, subject, at)
            && (ids == {} ==> Gone(log, log, table, subject) && Blanked(log, log, table, subject, at))
            && (Cleared(log) ==> Cleared(kept) && NothingPersonal(kept, table, subject))
            && (Cleared(log) ==> Cleared(blank) && NothingPersonal(blank, table, subject))
            && (Cleared(log) && ids == {} ==> NothingPersonal(log, table, subject))
  {
    assert forall i | i in log && Hits(log[i], table, subject) :: i in Matching(log, table, subject);
  }

  class SealStore {
    const sha: Hash
    const cap: nat
    var log: ChangeLog
    var seals: seq<Seal>
    var losses: seq<Loss>

    ghost function View(): SealedLog
      reads this
    {
      SealedLog(log, seals, losses)
    }

    ghost predicate Valid()
      reads this
    {
      cap >= 1 && Sound(sha, View())
    }

    constructor (sha: Hash, cap: nat)
      requires cap >= 1
      ensures Valid() && this.sha == sha && this.cap == cap && View() == EMPTY
    {
      this.sha, this.cap := sha, cap;
      log, seals, losses := map[], [], [];
    }

    method LogRowCaptured(row: LogRow)
      requires Valid() && Allowed(View(), Capture(row))
      modifies `log
      ensures Valid() && View() == Act(sha, old(View()), Capture(row))
    {
      ActKeepsSound(sha, View(), Capture(row));
      log := log[row.id := row];
    }

    /** `_hash_span`: fold the rows of a span without holding them in memory. */
    method HashSpan(lo: nat, hi: nat) returns (content: string, count: nat)
      ensures content == Fold(sha, Span(log, lo, hi)) && count == |Span(log, lo, hi)|
    {
      hide Repr, Fold, Rows;
      content, count := "", 0;
      NoRows(sha, log, lo, hi + 1);
      var i := lo;
      while i <= hi
        invariant lo <= i && (i <= hi + 1 || i == lo)
        invariant content == Fold(sha, Rows(log, lo, i)) && count == |Rows(log, lo, i)|
      {
        RowsSnoc(log, lo, i);
        if i in log {
          FoldSnoc(sha, Rows(log, lo, i), log[i]);
          content, count := sha(content + Repr(log[i])), count + 1;
        } else {
          assert Rows(log, lo, i) + [] == Rows(log, lo, i);
        }
        i := i + 1;
      }
    }

    /** SELECT min(id), max(id). */
    method MinMax(ids: set<nat>) returns (range: Option<(nat, nat)>)
      ensures range == RangeOf(ids)
    {
      if ids == {} { return None; }
      var first :| first in ids;
      var lo, hi, rest := first, first, ids - {first};
      while rest != {}
        invariant rest <= ids && lo in ids && hi in ids
        invariant forall i | i in ids && i !in rest :: lo <= i <= hi
        decreases rest
      {
        var i :| i in rest;
        if i < lo { lo := i; }
        if i > hi { hi := i; }
        rest := rest - {i};
      }
      MaxIsUnique(ids, hi);
      MinIsUnique(ids, lo);
      range := Some((lo, hi));
    }

    /** `seal()`. */
    method SealNext(at: nat) returns (made: bool)
      requires Valid()
      modifies `seals
      ensures Valid() && View() == DoSeal(sha, old(View()), cap, at)
      ensures made <==> exists i :: i in log && i > LastTo(old(seals))
      ensures !made ==> seals == old(seals)
      ensures made ==> |seals| == |old(seals)| + 1 && seals[..|old(seals)|] == old(seals)
      ensures made ==>
                var s := seals[|old(seals)|];
                && s.at == at && s.fromId == LastTo(old(seals)) + 1
                && (s.toId == s.fromId + cap - 1 || (s.toId < s.fromId + cap - 1 && s.toId in log && forall i | i in log :: i <= s.toId))
                && s.count == (|set i | i in log && s.fromId <= i <= s.toId|)
      ensures made ==> VerdictOf(sha, View(), |old(seals)|) == Intact
    {
      hide Sound, Fold, Span, ChainText, MaxId, MinId, VerdictOf;
      SealKeepsSound(sha, View(), cap, at);
      var lo, prev := LastTo(seals) + 1, LastChain(seals);
      var range := MinMax(log.Keys);
      if range.None? || range.value.1 < lo { return false; }
      var hi := range.value.1;
      if hi - lo + 1 > cap { hi := lo + cap - 1; }
      var content, count := HashSpan(lo, hi);
      var s := Seal(at, lo, hi, count, content, prev, "");
      SpanCount(log, lo, hi);
      TextLacksChain(s, sha(ChainText(s)));
      seals := seals + [s.(chain := sha(ChainText(s)))];
      made := true;
      NewSealIsIntact(sha, View());
    }

    /** `verify()`: re-hash every span and re-walk the chain, on any state at all. */
    method VerifyAll() returns (verdicts: seq<Verdict>)
      ensures |verdicts| == |seals|
      ensures forall i | 0 <= i < |seals| :: verdicts[i] == VerdictOf(sha, View(), i)
      ensures forall i | 0 <= i < |seals| :: verdicts[i] == ChainBroken <==> !Follows(seals, i)
      ensures forall i | 0 <= i < |seals| :: verdicts[i] == SealForged <==> Follows(seals, i) && !OwnDigest(sha, seals[i])
      ensures forall i | 0 <= i < |seals| && Follows(seals, i) && OwnDigest(sha, seals[i]) ::
                verdicts[i] == if Rehashes(seals[i]) then Intact else if LaterLoss(losses, seals[i]) then Explained else Tampered
    {
      hide Fold, Span, ChainText, Sound, Explains, Follows, OwnDigest, LaterLoss;
      verdicts := [];
      var prev: Option<string> := None;
      for i := 0 to |seals|
        invariant |verdicts| == i && prev == LastChain(seals[..i])
        invariant forall j | 0 <= j < i :: verdicts[j] == VerdictOf(sha, View(), j)
      {
        var s := seals[i];
        var content, _ := HashSpan(s.fromId, s.toId);
        var verdict;
        if s.prev != prev {
          verdict := ChainBroken;
        } else if sha(ChainText(s)) != s.chain {
          verdict := SealForged;
        } else if content == s.content {
          verdict := Intact;
        } else {
          var lawful := CountLawful(s);
          verdict := if lawful > 0 then Explained else Tampered;
        }
        verdicts := verdicts + [verdict];
        prev := Some(s.chain);
        assert seals[..i + 1][..i] == seals[..i];
      }
      hide VerdictOf;
      forall i | 0 <= i < |seals|
        ensures verdicts[i] == ChainBroken <==> !Follows(seals, i)
        ensures verdicts[i] == SealForged <==> Follows(seals, i) && !OwnDigest(sha, seals[i])
        ensures Follows(seals, i) && OwnDigest(sha, seals[i]) ==>
          verdicts[i] == if Rehashes(seals[i]) then Intact else if LaterLoss(losses, seals[i]) then Explained else Tampered
      {
        VerdictIff(sha, View(), i);
      }
    }

    predicate Rehashes(s: Seal)
      reads this
    {
      Fold(sha, Span(log, s.fromId, s.toId)) == s.content
    }

    /** How many ledger entries account for a difference under a seal. */
    method CountLawful(s: Seal) returns (n: nat)
      ensures n > 0 <==> exists j :: 0 <= j < |losses| && Explains(losses[j], s)
      ensures n > 0 <==> LaterLoss(losses, s)
    {
      n := 0;
      for i := 0 to |losses|
        invariant n > 0 <==> exists j :: 0 <= j < i && Explains(losses[j], s)
      {
        if Explains(losses[i], s) { n := n + 1; }
      }
    }

    /** Delete rows and record the range they covered. */
    method RemoveRows(ids: set<nat>, at: nat)
      requires Valid() && ids <= log.Keys && forall s | s in seals :: at > s.at
      modifies `log, `losses
      ensures Valid() && View() == Act(sha, old(View()), Remove(ids, at))
      ensures log == old(log) - ids && losses == old(losses) + [Loss(at, RangeOf(ids))]
    {
      ActKeepsSound(sha, View(), Remove(ids, at));
      var range := MinMax(ids);
      log := log - ids;
      losses := losses + [Loss(at, range)];
    }

    /**
     * `purge(older_than)`: whole partitions behind the cutoff first, then the rows
     * left in the straddling and default partitions.
     */
    method PurgeOlder(cutoff: nat, partitions: seq<(nat, nat)>, at: nat)
      requires Valid() && forall s | s in seals :: at > s.at
      modifies `log, `losses
      ensures Valid() && seals == old(seals)
      ensures log == map i | i in old(log) && old(log)[i].ts >= cutoff :: old(log)[i]
    {
      for k := 0 to |partitions|
        invariant Valid() && seals == old(seals)
        invariant log.Keys <= old(log).Keys && forall i | i in log :: log[i] == old(log)[i]
        invariant forall i | i in old(log) && i !in log :: old(log)[i].ts < cutoff
      {
        if partitions[k].1 <= cutoff {
          RemoveRows(InPartition(log, partitions[k].0, partitions[k].1), at);
        }
      }
      var gone := OlderThan(log, cutoff);
      ghost var before := log;
      if gone != {} { RemoveRows(gone, at); }
      assert log == before - gone;
      forall i | i in old(log) ensures i in log <==> old(log)[i].ts >= cutoff {
        assert i in before ==> before[i] == old(log)[i];
      }
    }

    /** `purge()`: the retention policy, table by table. */
    method PurgePolicy(tables: seq<string>, cutoff: string -> nat, at: nat)
      requires Valid() && forall s | s in seals :: at > s.at
      modifies `log, `losses
      ensures Valid() && seals == old(seals)
      ensures log == map i | i in old(log) && !(old(log)[i].table in tables && old(log)[i].ts < cutoff(old(log)[i].table)) :: old(log)[i]
    {
      hide Sound;
      for k := 0 to |tables|
        invariant Valid() && seals == old(seals)
        invariant log == map i | i in old(log) && !(old(log)[i].table in tables[..k] && old(log)[i].ts < cutoff(old(log)[i].table)) :: old(log)[i]
      {
        var gone := Expired(log, tables[k], cutoff(tables[k]));
        ghost var before := log;
        if gone != {} { RemoveRows(gone, at); }
        assert log == before - gone;
        assert tables[..k + 1] == tables[..k] + [tables[k]];
        forall i | i in old(log)
          ensures i in log <==> !(old(log)[i].table in tables[..k + 1] && old(log)[i].ts < cutoff(old(log)[i].table))
        {
          assert i in before <==> !(old(log)[i].table in tables[..k] && old(log)[i].ts < cutoff(old(log)[i].table));
          assert i in before ==> before[i] == old(log)[i];
        }
      }
      assert tables[..|tables|] == tables;
    }

    /** `forget()`: recorded first, then redacted or deleted. */
    method Forget(table: string, subject: string -> bool, hard: bool, at: nat) returns (erased: nat)
      requires Valid() && forall s | s in seals :: at > s.at
      modifies `log, `losses
      ensures var ids := Matching(old(log), table, subject);
              && erased == |ids|
              && View() == if ids == {} then old(View())
                           else Act(sha, old(View()), if hard then Remove(ids, at) else Redact(ids, at))
      ensures Valid() && seals == old(seals)
      ensures erased == |set i | i in old(log) && Hits(old(log)[i], table, subject)|
      ensures if hard then Gone(old(log), log, table, subject) else Blanked(old(log), log, table, subject, at)
      ensures Cleared(old(log)) ==> Cleared(log) && NothingPersonal(log, table, subject)
      ensures erased == 0 ==> losses == old(losses)
      ensures erased > 0 ==> |losses| == |old(losses)| + 1 && losses[..|old(losses)|] == old(losses)
      ensures erased > 0 ==> var l := losses[|old(losses)|]; l.at == at && l.range.Some? && Covers(old(log), table, subject, l.range.value)
    {
      var ids := Matching(log, table, subject);
      erased := |ids|;
      ErasesAll(log, table, subject, at);
      if ids == {} { return; }
      RangeCovers(log, table, subject);
      hide Sound, MinId, MaxId, RangeOf, Covers, Gone, Blanked, Cleared, NothingPersonal, Redacted, Hits;
      if hard {
        RemoveRows(ids, at);
      } else {
        ActKeepsSound(sha, View(), Redact(ids, at));
        var range := MinMax(ids);
        losses := losses + [Loss(at, range)];
        log := map i | i in log :: if i in ids then Redacted(log[i], at) else log[i];
      }
    }
  }

  /** What verify() answers about any store only these methods ever touched. */
  lemma StoreNeverTampering(store: SealStore)
    requires store.Valid()
    ensures forall i | 0 <= i < |store.seals| :: VerdictOf(store.sha, store.View(), i) in {Intact, Explained}
  {
    SoundVerdicts(store.sha, store.View());
  }
}
