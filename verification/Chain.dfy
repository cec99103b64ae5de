/** verify()'s walk over the seals themselves: which lists it accepts. */
module Chain {
  import opened Options
  import opened Text
  import opened Sha
  import opened Seals
  import opened Tamper

  // ---- The verdicts ---------------------------------------------------------

  /** A seal names its predecessor's chain_hash, the first one none. */
  predicate Follows(seals: seq<Seal>, i: nat)
    requires i < |seals|
  {
    seals[i].prev == if i == 0 then None else Some(seals[i - 1].chain)
  }

  /** Its own chain_hash is the digest of its fields, joined by '|'. */
  predicate OwnDigest(sha: Hash, s: Seal) {
    s.chain == sha((if s.prev.Some? then s.prev.value else "") + "|" + s.content + "|" + Dec(s.fromId) + "|" + Dec(s.toId) + "|" + Dec(s.count))
  }

  /** A loss recorded after the seal, over a range that meets its span. */
  predicate LaterLoss(losses: seq<Loss>, s: Seal) {
    exists j :: 0 <= j < |losses| && losses[j].range.Some? && s.at < losses[j].at &&
      losses[j].range.value.0 <= s.toId && s.fromId <= losses[j].range.value.1
  }

  lemma DigestText(s: Seal)
    ensures ChainText(s) ==
      (if s.prev.Some? then s.prev.value else "") + "|" + s.content + "|" + Dec(s.fromId) + "|" + Dec(s.toId) + "|" + Dec(s.count)
  {
    hide Dec;
  }

  /** The exact condition of each verdict, on any state at all. */
  lemma VerdictIff(sha: Hash, h: SealedLog, i: nat)
    requires i < |h.seals|
    ensures var s, v := h.seals[i], VerdictOf(sha, h, i);
            var linked, own := Follows(h.seals, i), OwnDigest(sha, s);
            var same := Fold(sha, Span(h.log, s.fromId, s.toId)) == s.content;
            && (v == ChainBroken <==> !linked)
            && (v == SealForged <==> linked && !own)
            && (v == Intact <==> linked && own && same)
            && (v == Explained <==> linked && own && !same && LaterLoss(h.losses, s))
            && (v == Seals.Tampered <==> linked && own && !same && !LaterLoss(h.losses, s))
  {
    hide ChainText, Fold, Span;
    DigestText(h.seals[i]);
    assert LastChain(h.seals[..i]) == if i == 0 then None else Some(h.seals[i - 1].chain);
    assert LaterLoss(h.losses, h.seals[i]) <==> exists j :: 0 <= j < |h.losses| && Explains(h.losses[j], h.seals[i]);
  }

  /** No seal is found broken or forged. */
  predicate ChainAccepted(sha: Hash, h: SealedLog) {
    forall i | 0 <= i < |h.seals| :: VerdictOf(sha, h, i) != ChainBroken && VerdictOf(sha, h, i) != SealForged
  }

  predicate Chained(sha: Hash, seals: seq<Seal>) {
    forall i | 0 <= i < |seals| :: Follows(seals, i) && OwnDigest(sha, seals[i])
  }

  /** verify() accepts the chain if and only if every seal follows its predecessor and is its own digest. */
  lemma AcceptedIff(sha: Hash, h: SealedLog)
    ensures ChainAccepted(sha, h) <==> Chained(sha, h.seals)
  {
    hide VerdictOf, Follows, OwnDigest;
    forall i | 0 <= i < |h.seals|
      ensures VerdictOf(sha, h, i) != ChainBroken && VerdictOf(sha, h, i) != SealForged <==>
              Follows(h.seals, i) && OwnDigest(sha, h.seals[i])
    {
      VerdictIff(sha, h, i);
    }
  }

  lemma FollowsAt(sha: Hash, a: seq<Seal>, m: nat)
    requires Chained(sha, a) && m < |a|
    ensures Follows(a, m) && OwnDigest(sha, a[m])
  {
  }

  // ---- What the head determines ------------------------------------------------

  ghost function ChainInputs(seals: seq<Seal>): iset<string> {
    iset i | 0 <= i < |seals| :: ChainText(seals[i])
  }

  /** The fields a seal row binds. */
  function Bound(s: Seal): (Option<string>, string, nat, nat, nat) {
    (s.prev, s.content, s.fromId, s.toId, s.count)
  }

  /** A predecessor's digest, or none: never the empty string, which would read like none. */
  predicate ProperPrev(s: Seal) {
    s.prev != Some("") && NoBar(s.prev.GetOr(""))
  }

  /** The text a seal is the digest of tells its fields apart, bars in the content included. */
  lemma ChainTextDetermines(a: Seal, b: Seal)
    requires ProperPrev(a) && ProperPrev(b) && ChainText(a) == ChainText(b)
    ensures Bound(a) == Bound(b)
  {
    hide Dec;
    var af, bf := Dec(a.fromId) + "|" + (Dec(a.toId) + "|" + Dec(a.count)), Dec(b.fromId) + "|" + (Dec(b.toId) + "|" + Dec(b.count));
    CutField(a.prev.GetOr(""), a.content + "|" + af, b.prev.GetOr(""), b.content + "|" + bf);
    CutNumbers(a.content, a.fromId, a.toId, a.count, b.content, b.fromId, b.toId, b.count);
  }

  lemma Regroup(x: string, a: string, b: string, c: string)
    ensures x + "|" + (a + "|" + (b + "|" + c)) == x + "|" + a + "|" + b + "|" + c
  {
  }

  lemma CutThree(x: string, a: string, b: string, c: string, y: string, d: string, e: string, f: string)
    requires NoBar(a) && NoBar(b) && NoBar(c) && NoBar(d) && NoBar(e) && NoBar(f)
    requires x + "|" + a + "|" + b + "|" + c == y + "|" + d + "|" + e + "|" + f
    ensures x == y && a == d && b == e && c == f
  {
    hide NoBar;
    CutLast(x + "|" + a + "|" + b, c, y + "|" + d + "|" + e, f);
    CutLast(x + "|" + a, b, y + "|" + d, e);
    CutLast(x, a, y, d);
  }

  lemma {:induction false} CutNumbers(x: string, i: nat, j: nat, k: nat, y: string, l: nat, m: nat, n: nat)
    requires x + "|" + (Dec(i) + "|" + (Dec(j) + "|" + Dec(k))) == y + "|" + (Dec(l) + "|" + (Dec(m) + "|" + Dec(n)))
    ensures x == y && i == l && j == m && k == n
  {
    hide Dec, NoBar;
    Regroup(x, Dec(i), Dec(j), Dec(k));
    Regroup(y, Dec(l), Dec(m), Dec(n));
    CutThree(x, Dec(i), Dec(j), Dec(k), y, Dec(l), Dec(m), Dec(n));
    DecInjective(i, l);
    DecInjective(j, m);
    DecInjective(k, n);
  }

  lemma ChainedPrev(sha: Hash, seals: seq<Seal>, i: nat)
    requires HexDigests(sha) && Chained(sha, seals) && i < |seals|
    ensures seals[i].chain == sha(ChainText(seals[i])) && ChainText(seals[i]) in ChainInputs(seals)
    ensures ProperPrev(seals[i]) && (seals[i].prev == None <==> i == 0)
  {
    hide ChainText, Dec;
    assert Follows(seals, i) && OwnDigest(sha, seals[i]);
    DigestText(seals[i]);
    if i > 0 {
      assert OwnDigest(sha, seals[i - 1]);
      DigestText(seals[i - 1]);
    }
  }

  /** Seals of chained lists with the same chain_hash bind the same fields. */
  lemma SameChainSameFields(sha: Hash, a: seq<Seal>, i: nat, b: seq<Seal>, j: nat)
    requires HexDigests(sha) && Chained(sha, a) && Chained(sha, b) && i < |a| && j < |b|
    requires CollisionFree(sha, ChainInputs(a) + ChainInputs(b)) && a[i].chain == b[j].chain
    ensures Bound(a[i]) == Bound(b[j])
  {
    ChainedPrev(sha, a, i);
    ChainedPrev(sha, b, j);
    hide HexDigests, Chained, ChainText, ChainInputs;
    ChainTextDetermines(a[i], b[j]);
  }

  /** Such seals stand at the same position, and all before them are the same too. */
  lemma {:induction false} SamePosition(sha: Hash, a: seq<Seal>, i: nat, b: seq<Seal>, j: nat)
    requires HexDigests(sha) && Chained(sha, a) && Chained(sha, b) && i < |a| && j < |b|
    requires CollisionFree(sha, ChainInputs(a) + ChainInputs(b)) && a[i].chain == b[j].chain
    ensures i == j && forall k | 0 <= k <= i :: Bound(a[k]) == Bound(b[k]) && a[k].chain == b[k].chain
  {
    hide HexDigests, Chained, ChainText, ChainInputs, CollisionFree, OwnDigest;
    SameChainSameFields(sha, a, i, b, j);
    ChainedPrev(sha, a, i);
    ChainedPrev(sha, b, j);
    FollowsAt(sha, a, i);
    FollowsAt(sha, b, j);
    if i > 0 { SamePosition(sha, a, i - 1, b, j - 1); }
  }

  /** Same spans, counts, content hashes and chain, seal by seal. */
  ghost predicate SameSeals(a: seq<Seal>, b: seq<Seal>) {
    |a| == |b| && forall i | 0 <= i < |a| :: Bound(a[i]) == Bound(b[i]) && a[i].chain == b[i].chain
  }

  /**
   * The head determines the history: two seal lists whose chains verify() accepts and
   * that end in the same chain_hash have the same spans, counts and content hashes.
   */
  lemma HeadDeterminesHistory(sha: Hash, a: SealedLog, b: SealedLog)
    requires HexDigests(sha) && ChainAccepted(sha, a) && ChainAccepted(sha, b)
    requires CollisionFree(sha, ChainInputs(a.seals) + ChainInputs(b.seals))
    requires LastChain(a.seals) == LastChain(b.seals)
    ensures SameSeals(a.seals, b.seals)
  {
    AcceptedIff(sha, a);
    AcceptedIff(sha, b);
    hide HexDigests, Chained, ChainAccepted, ChainInputs;
    if a.seals != [] { SamePosition(sha, a.seals, |a.seals| - 1, b.seals, |b.seals| - 1); }
  }

  /** And so the same rows, span by span: a head on paper pins the whole sealed history. */
  lemma HeadDeterminesRows(sha: Hash, a: SealedLog, b: SealedLog, i: nat)
    requires HexDigests(sha) && ChainAccepted(sha, a) && ChainAccepted(sha, b)
    requires CollisionFree(sha, ChainInputs(a.seals) + ChainInputs(b.seals))
    requires LastChain(a.seals) == LastChain(b.seals) && i < |a.seals|
    requires VerdictOf(sha, a, i) == Intact && (i < |b.seals| ==> VerdictOf(sha, b, i) == Intact)
    requires var s := a.seals[i];
             var x, y := Span(a.log, s.fromId, s.toId), Span(b.log, s.fromId, s.toId);
             Genuine(x) && Genuine(y) && CollisionFree(sha, FoldInputs(sha, x) + FoldInputs(sha, y))
    ensures var s := a.seals[i];
            Reprs(Span(a.log, s.fromId, s.toId)) == Reprs(Span(b.log, s.fromId, s.toId))
  {
    hide HexDigests, ChainText, ChainAccepted, ChainInputs, FoldInputs, Reprs, Span, Fold;
    HeadDeterminesHistory(sha, a, b);
    var s := a.seals[i];
    assert Bound(s) == Bound(b.seals[i]);
    FoldDetermines(sha, Span(a.log, s.fromId, s.toId), Span(b.log, s.fromId, s.toId));
  }

  // ---- Seals removed, reordered, repeated -----------------------------------------

  lemma InputsHere(sha: Hash, a: seq<Seal>)
    requires CollisionFree(sha, ChainInputs(a))
    ensures CollisionFree(sha, ChainInputs(a) + ChainInputs(a))
  {
    assert ChainInputs(a) + ChainInputs(a) == ChainInputs(a);
  }

  /** The only seal of an accepted list that follows these first ones is the next. */
  lemma RearrangedNext(sha: Hash, a: seq<Seal>, n: nat, s: Seal)
    requires HexDigests(sha) && Chained(sha, a) && CollisionFree(sha, ChainInputs(a))
    requires n <= |a| && s in a && s.prev == if n == 0 then None else Some(a[n - 1].chain)
    ensures n < |a| && s == a[n]
  {
    hide HexDigests, ChainInputs, Chained, CollisionFree, OwnDigest, ChainText, ProperPrev, NoBar;
    var m: nat :| m < |a| && a[m] == s;
    ChainedPrev(sha, a, m);
    FollowsAt(sha, a, m);
    if n > 0 {
      InputsHere(sha, a);
      SamePosition(sha, a, m - 1, a, n - 1);
    }
  }

  lemma {:induction false} RearrangedPrefix(sha: Hash, a: seq<Seal>, b: seq<Seal>, n: nat)
    requires HexDigests(sha) && Chained(sha, a) && CollisionFree(sha, ChainInputs(a))
    requires (forall s | s in b :: s in a) && n <= |b| && forall i | 0 <= i < n :: Follows(b, i)
    ensures n <= |a| && b[..n] == a[..n]
  {
    hide HexDigests, ChainInputs, Chained, CollisionFree;
    if n > 0 {
      RearrangedPrefix(sha, a, b, n - 1);
      assert n > 1 ==> b[n - 2] == b[..n - 1][n - 2] == a[n - 2];
      assert Follows(b, n - 1) && b[n - 1] in b;
      RearrangedNext(sha, a, n - 1, b[n - 1]);
      assert b[..n] == b[..n - 1] + [b[n - 1]] && a[..n] == a[..n - 1] + [a[n - 1]];
    }
  }

  /**
   * Whatever is made of the seals of a list whose chain was accepted, by removing some,
   * changing their order or repeating them, is accepted if and only if it is a first
   * part of that list: anything missing, moved or added before its end is flagged.
   */
  lemma RearrangedIff(sha: Hash, was: SealedLog, now: SealedLog)
    requires HexDigests(sha) && ChainAccepted(sha, was) && CollisionFree(sha, ChainInputs(was.seals))
    requires forall s | s in now.seals :: s in was.seals
    ensures ChainAccepted(sha, now) <==> now.seals <= was.seals
  {
    AcceptedIff(sha, was);
    AcceptedIff(sha, now);
    hide HexDigests, ChainAccepted, ChainInputs, OwnDigest;
    var a, b := was.seals, now.seals;
    if Chained(sha, b) {
      RearrangedPrefix(sha, a, b, |b|);
      assert b == b[..|b|];
    }
    if b <= a {
      forall i | 0 <= i < |b| ensures Follows(b, i) && OwnDigest(sha, b[i]) {
        assert Follows(a, i) && OwnDigest(sha, a[i]);
        assert b[i] == a[i] && (i > 0 ==> b[i - 1] == a[i - 1]);
      }
    }
  }

  /** The verdict on a seal depends on the seal, the chain_hash before it, the log and the ledgers. */
  lemma SameVerdict(sha: Hash, h: SealedLog, i: nat, now: SealedLog, j: nat)
    requires i < |h.seals| && j < |now.seals| && h.log == now.log && h.losses == now.losses
    requires h.seals[i] == now.seals[j] && (i == 0 <==> j == 0) && (i > 0 ==> h.seals[i - 1].chain == now.seals[j - 1].chain)
    ensures VerdictOf(sha, now, j) == VerdictOf(sha, h, i)
  {
    hide ChainText, Fold, Span;
    assert LastChain(h.seals[..i]) == LastChain(now.seals[..j]);
  }

  /** A seal removed: the one after it is CHAIN BROKEN, and every other verdict is as it was. */
  lemma RemovedIsFlagged(sha: Hash, h: SealedLog, i: nat)
    requires HexDigests(sha) && ChainAccepted(sha, h) && CollisionFree(sha, ChainInputs(h.seals)) && i < |h.seals|
    ensures var now := h.(seals := h.seals[..i] + h.seals[i + 1..]);
            && (i < |now.seals| ==> VerdictOf(sha, now, i) == ChainBroken)
            && (forall k | 0 <= k < i :: VerdictOf(sha, now, k) == VerdictOf(sha, h, k))
            && (forall k | i < k < |now.seals| :: VerdictOf(sha, now, k) == VerdictOf(sha, h, k + 1))
  {
    hide HexDigests, VerdictOf, ChainInputs, Chained, ChainAccepted, CollisionFree, OwnDigest;
    AcceptedIff(sha, h);
    var a, now := h.seals, h.(seals := h.seals[..i] + h.seals[i + 1..]);
    forall k | 0 <= k < i ensures VerdictOf(sha, now, k) == VerdictOf(sha, h, k) {
      SameVerdict(sha, h, k, now, k);
    }
    forall k | i < k < |now.seals| ensures VerdictOf(sha, now, k) == VerdictOf(sha, h, k + 1) {
      assert now.seals[k - 1] == a[k] && now.seals[k] == a[k + 1];
      SameVerdict(sha, h, k + 1, now, k);
    }
    if i < |now.seals| { RemovedBreaks(sha, h, now, i); }
  }

  lemma RemovedBreaks(sha: Hash, h: SealedLog, now: SealedLog, i: nat)
    requires HexDigests(sha) && Chained(sha, h.seals) && CollisionFree(sha, ChainInputs(h.seals)) && i + 1 < |h.seals|
    requires now.seals == h.seals[..i] + h.seals[i + 1..]
    ensures VerdictOf(sha, now, i) == ChainBroken
  {
    hide HexDigests, VerdictOf, ChainInputs, Chained, CollisionFree, OwnDigest, Fold, Span;
    var a := h.seals;
    FollowsAt(sha, a, i + 1);
    InputsHere(sha, a);
    assert now.seals[i] == a[i + 1] && (i > 0 ==> now.seals[i - 1] == a[i - 1]);
    if i > 0 && a[i - 1].chain == a[i].chain { SamePosition(sha, a, i - 1, a, i); }
    VerdictIff(sha, now, i);
  }

  // ---- A seal edited -----------------------------------------------------------------

  lemma EditedHere(sha: Hash, h: SealedLog, now: SealedLog, i: nat, s: Seal)
    requires Chained(sha, h.seals) && i < |h.seals| && now.seals == h.seals[i := s]
    ensures VerdictOf(sha, now, i) == ChainBroken <==> s.prev != h.seals[i].prev
    ensures VerdictOf(sha, now, i) == SealForged <==> s.prev == h.seals[i].prev && !OwnDigest(sha, s)
    ensures i + 1 < |h.seals| ==> (VerdictOf(sha, now, i + 1) == ChainBroken <==> s.chain != h.seals[i].chain)
    ensures i + 1 < |h.seals| ==> VerdictOf(sha, now, i + 1) != SealForged
  {
    hide VerdictOf, OwnDigest, Chained, Fold, Span, LaterLoss;
    FollowsAt(sha, h.seals, i);
    VerdictIff(sha, now, i);
    if i + 1 < |h.seals| {
      FollowsAt(sha, h.seals, i + 1);
      VerdictIff(sha, now, i + 1);
    }
  }

  lemma EditedElsewhere(sha: Hash, h: SealedLog, i: nat, s: Seal)
    requires i < |h.seals|
    ensures var now := h.(seals := h.seals[i := s]);
            forall k | 0 <= k < |h.seals| && k != i && k != i + 1 :: VerdictOf(sha, now, k) == VerdictOf(sha, h, k)
  {
    hide VerdictOf;
    var now := h.(seals := h.seals[i := s]);
    forall k | 0 <= k < |h.seals| && k != i && k != i + 1 ensures VerdictOf(sha, now, k) == VerdictOf(sha, h, k) {
      SameVerdict(sha, h, k, now, k);
    }
  }

  /** A forger's seal that is its own digest has another chain_hash. */
  lemma OtherFieldsOtherChain(sha: Hash, h: SealedLog, i: nat, s: Seal)
    requires HexDigests(sha) && Chained(sha, h.seals) && i < |h.seals|
    requires CollisionFree(sha, ChainInputs(h.seals) + iset{ChainText(s)})
    requires s.prev == h.seals[i].prev && OwnDigest(sha, s) && s.chain == h.seals[i].chain
    ensures Bound(s) == Bound(h.seals[i])
  {
    ChainedPrev(sha, h.seals, i);
    DigestText(s);
    hide HexDigests, Chained, ChainText, ChainInputs, Dec;
    ChainTextDetermines(s, h.seals[i]);
  }

  /**
   * One seal of an accepted list edited: the list is accepted again if and only if no
   * bound field changed, or it was the last seal and its digest was made anew.  An edit
   * that leaves prev and chain_hash alone is SEAL FORGED right there.
   */
  lemma EditedIff(sha: Hash, h: SealedLog, i: nat, s: Seal)
    requires HexDigests(sha) && ChainAccepted(sha, h) && i < |h.seals|
    requires CollisionFree(sha, ChainInputs(h.seals) + iset{ChainText(s)})
    ensures var e, now := h.seals[i], h.(seals := h.seals[i := s]);
            && (ChainAccepted(sha, now) <==>
                  (Bound(s) == Bound(e) && s.chain == e.chain) ||
                  (i == |h.seals| - 1 && s.prev == e.prev && OwnDigest(sha, s)))
            && (s.prev == e.prev && s.chain == e.chain && Bound(s) != Bound(e) ==> VerdictOf(sha, now, i) == SealForged)
  {
    hide HexDigests, ChainText, VerdictOf, OwnDigest, Chained, ChainInputs, CollisionFree, Follows;
    var e, now := h.seals[i], h.(seals := h.seals[i := s]);
    AcceptedIff(sha, h);
    FollowsAt(sha, h.seals, i);
    EditedHere(sha, h, now, i, s);
    EditedElsewhere(sha, h, i, s);
    SameFieldsSameDigest(sha, e, s);
    if s.prev == e.prev && OwnDigest(sha, s) && s.chain == e.chain { OtherFieldsOtherChain(sha, h, i, s); }
    assert |now.seals| == |h.seals|;
  }

  lemma SameFieldsSameDigest(sha: Hash, e: Seal, s: Seal)
    requires OwnDigest(sha, e)
    ensures Bound(s) == Bound(e) && s.chain == e.chain ==> OwnDigest(sha, s)
  {
  }
}
