/** Purge and forget read the clock and the range for their ledger entry before their change commits. */
module Readings {
  import opened Options
  import opened Sha
  import opened Seals

  /** A ledger entry still to be committed: its clock reading, the rows it found, and those logged since. */
  datatype Reading = Reading(at: nat, found: set<nat>, since: set<nat>)

  /** The sealed log, the clock, and the purges and erasures still under way. */
  datatype Site = Site(h: SealedLog, clock: nat, open: map<nat, Reading>)

  datatype Event =
    | Logged(row: LogRow)
    | Sealed(cap: nat, tick: nat)
    | Stamped(tx: nat, ids: set<nat>, tick: nat)     // the ledger entry is written: range and clock
    | Committed(tx: nat, ids: set<nat>, hard: bool)  // the rows change, and the entry with them

  /** What PostgreSQL allows: the clock never goes back, and rows that change were found or came later. */
  ghost predicate Possible(s: Site, e: Event) {
    match e
    case Logged(row) => row.id !in s.h.log
    case Sealed(cap, tick) => cap >= 1 && tick >= s.clock
    case Stamped(tx, ids, tick) => tx !in s.open && ids <= s.h.log.Keys && tick >= s.clock
    case Committed(tx, ids, _) => tx in s.open && ids <= s.open[tx].found + s.open[tx].since
  }

  /** Rows removed or redacted, and the loss recorded with the range read before. */
  ghost function Lose(h: SealedLog, r: Reading, ids: set<nat>, hard: bool): SealedLog {
    SealedLog(
      if hard then h.log - ids else map i | i in h.log :: if i in ids then Redacted(h.log[i], r.at) else h.log[i],
      h.seals, h.losses + [Loss(r.at, RangeOf(r.found))])
  }

  ghost function Next(sha: Hash, s: Site, e: Event): Site
    requires Possible(s, e)
  {
    match e
    case Logged(row) =>
      Site(Act(sha, s.h, Capture(row)), s.clock,
           map tx | tx in s.open :: s.open[tx].(since := s.open[tx].since + {row.id}))
    case Sealed(cap, tick) => s.(h := DoSeal(sha, s.h, cap, tick), clock := tick)
    case Stamped(tx, ids, tick) => s.(clock := tick, open := s.open[tx := Reading(tick, ids, {})])
    case Committed(tx, ids, hard) => Site(Lose(s.h, s.open[tx], ids, hard), s.clock, s.open - {tx})
  }

  /**
   * What an honest run must not do: log below the sealed ids, seal between a ledger
   * reading and its change, or read the ledger time within a seal's own instant.
   */
  ghost predicate Orderly(s: Site, e: Event) {
    match e
    case Logged(row) => row.id > LastTo(s.h.seals)
    case Sealed(_, _) => s.open == map[]
    case Stamped(_, _, tick) => forall k | 0 <= k < |s.h.seals| :: tick > s.h.seals[k].at
    case Committed(_, _, _) => true
  }

  const START := Site(EMPTY, 0, map[])

  ghost predicate Run(sha: Hash, events: seq<Event>, s: Site)
    decreases |events|
  {
    if events == [] then s == START
    else
      var earlier, e := events[..|events| - 1], events[|events| - 1];
      exists before :: Run(sha, earlier, before) && Possible(before, e) && Orderly(before, e) && s == Next(sha, before, e)
  }

  /** Ledger times still to be written are later than every seal, and rows logged since are beyond them. */
  ghost predicate Ahead(s: Site) {
    && (forall tx, k | tx in s.open && 0 <= k < |s.h.seals| :: s.open[tx].at > s.h.seals[k].at)
    && (forall tx, i | tx in s.open && i in s.open[tx].since :: i > LastTo(s.h.seals))
  }

  /** A change that commits takes away what it is for, and nothing else. */
  lemma LoseErases(h: SealedLog, r: Reading, ids: set<nat>, hard: bool)
    ensures var log := Lose(h, r, ids, hard).log;
      if hard then log.Keys == h.log.Keys - ids && forall i | i in log :: log[i] == h.log[i]
      else
        && log.Keys == h.log.Keys
        && (forall i | i in log && i !in ids :: log[i] == h.log[i])
        && (forall i | i in log && i in ids && h.log[i].redactedAt == None ::
              log[i].oldRow == None && log[i].newRow == None && log[i].actor == "erased" && log[i].redactedAt == Some(r.at))
  {
    hide MinId, MaxId;
  }

  /** A seal stays accounted for through a change of rows in the recorded range or beyond the sealed ids. */
  lemma LoseAccounts(sha: Hash, h: SealedLog, r: Reading, ids: set<nat>, hard: bool, s: Seal)
    requires Accounted(sha, h, s) && r.at > s.at && ids <= r.found + r.since
    requires forall i | i in r.since :: i > s.toId
    ensures Accounted(sha, Lose(h, r, ids, hard), s)
  {
    hide Fold, MinId, MaxId, Rows;
    var after, l := Lose(h, r, ids, hard), Loss(r.at, RangeOf(r.found));
    assert after.losses[|h.losses|] == l;
    if exists i :: i in r.found && s.fromId <= i <= s.toId {
      assert Explains(l, s);
    } else {
      RowsAgree(h.log, after.log, s.fromId, s.toId + 1);
      if !(Fold(sha, Span(h.log, s.fromId, s.toId)) == s.content) {
        var j :| 0 <= j < |h.losses| && Explains(h.losses[j], s);
        assert after.losses[j] == h.losses[j];
      }
    }
  }

  lemma LoseKeepsSound(sha: Hash, h: SealedLog, r: Reading, ids: set<nat>, hard: bool)
    requires Sound(sha, h) && ids <= r.found + r.since
    requires forall k | 0 <= k < |h.seals| :: r.at > h.seals[k].at
    requires forall i | i in r.since :: i > LastTo(h.seals)
    ensures Sound(sha, Lose(h, r, ids, hard))
  {
    hide Accounted, MinId, MaxId, Redacted;
    var after := Lose(h, r, ids, hard);
    forall i | 0 <= i < |h.seals|
      ensures Linked(sha, after.seals, i) && Accounted(sha, after, after.seals[i])
    {
      assert Linked(sha, h.seals, i) && Accounted(sha, h, h.seals[i]);
      LinkedBounds(sha, h.seals, i);
      LoseAccounts(sha, h, r, ids, hard, h.seals[i]);
    }
  }

  lemma NextKeepsSound(sha: Hash, s: Site, e: Event)
    requires Sound(sha, s.h) && Ahead(s) && Possible(s, e) && Orderly(s, e)
    ensures Sound(sha, Next(sha, s, e).h) && Ahead(Next(sha, s, e))
  {
    hide Sound, DoSeal, MinId, MaxId, Redacted;
    match e
    case Logged(row) => ActKeepsSound(sha, s.h, Capture(row));
    case Sealed(cap, tick) => ActKeepsSound(sha, s.h, SealBatch(cap, tick));
    case Stamped(_, _, _) =>
    case Committed(tx, ids, hard) => LoseKeepsSound(sha, s.h, s.open[tx], ids, hard);
  }

  /** Orderly runs never look like tampering, however calls overlap otherwise. */
  lemma {:induction false} OrderlyNeverTampering(sha: Hash, events: seq<Event>, s: Site)
    requires Run(sha, events, s)
    ensures Sound(sha, s.h) && Ahead(s)
    ensures forall i | 0 <= i < |s.h.seals| :: VerdictOf(sha, s.h, i) in {Intact, Explained}
    decreases |events|
  {
    hide Next, Sound, Possible, Orderly, VerdictOf;
    if events == [] {
      NothingSealed(sha);
    } else {
      var earlier, e := events[..|events| - 1], events[|events| - 1];
      var before :| Run(sha, earlier, before) && Possible(before, e) && Orderly(before, e) && s == Next(sha, before, e);
      OrderlyNeverTampering(sha, earlier, before);
      NextKeepsSound(sha, before, e);
    }
    SoundVerdicts(sha, s.h);
  }

  lemma NothingSealed(sha: Hash)
    ensures Sound(sha, EMPTY)
  {
  }

  // ---- A seal in between -------------------------------------------------------------

  /** Nothing in the ledgers, or still open, is later than the clock. */
  ghost predicate Timely(s: Site) {
    && (forall j | 0 <= j < |s.h.losses| :: s.h.losses[j].at <= s.clock)
    && (forall tx | tx in s.open :: s.open[tx].at <= s.clock)
  }

  lemma NextKeepsTimely(sha: Hash, s: Site, e: Event)
    requires Timely(s) && Possible(s, e)
    ensures Timely(Next(sha, s, e))
  {
    hide MinId, MaxId, Redacted, SealOver;
  }

  lemma NewestSeal(sha: Hash, h: SealedLog, cap: nat, at: nat)
    requires cap >= 1 && LastTo(h.seals) < MaxId(h.log.Keys)
    ensures var sealed := DoSeal(sha, h, cap, at);
            && |sealed.seals| == |h.seals| + 1 && sealed.seals[..|h.seals|] == h.seals
            && sealed.log == h.log && sealed.losses == h.losses
            && var s := sealed.seals[|h.seals|];
               s.at == at && s.prev == LastChain(h.seals) && s.chain == sha(ChainText(s)) &&
               s.content == Fold(sha, Span(h.log, s.fromId, s.toId))
  {
    hide MaxId, Fold, Span;
  }

  /**
   * A seal taken between a ledger reading and its change is called tampered exactly
   * when the change alters the text of what it sealed: no entry can excuse it.
   */
  lemma SealInBetweenIff(sha: Hash, s: Site, cap: nat, tick: nat, tx: nat, ids: set<nat>, hard: bool)
    requires Timely(s) && Possible(s, Committed(tx, ids, hard))
    requires Possible(s, Sealed(cap, tick)) && LastTo(s.h.seals) < MaxId(s.h.log.Keys)
    ensures var n, sealed := |s.h.seals|, Next(sha, s, Sealed(cap, tick));
            |sealed.h.seals| == n + 1 && Possible(sealed, Committed(tx, ids, hard)) &&
            var after, seal := Next(sha, sealed, Committed(tx, ids, hard)).h, sealed.h.seals[n];
            after.seals == sealed.h.seals &&
            VerdictOf(sha, after, n) ==
              if Fold(sha, Span(after.log, seal.fromId, seal.toId)) == Fold(sha, Span(s.h.log, seal.fromId, seal.toId))
              then Intact else Tampered
  {
    NewestSeal(sha, s.h, cap, tick);
    hide DoSeal, MinId, MaxId, Redacted, Fold, Span, ChainText;
    NextKeepsTimely(sha, s, Sealed(cap, tick));
    var sealed := Next(sha, s, Sealed(cap, tick));
    NextKeepsTimely(sha, sealed, Committed(tx, ids, hard));
    var after := Next(sha, sealed, Committed(tx, ids, hard));
    var seal := after.h.seals[|s.h.seals|];
    assert forall j | 0 <= j < |after.h.losses| :: !Explains(after.h.losses[j], seal);
  }
}
