/** What `verify` says of an archive that verified once and was altered since. */
module Altered {
  import opened Sha
  import opened Lsn
  import opened Archives
  import opened Verifying

  predicate Found(sha: Hash, json: Json, files: Files, entries: seq<Entry>, f: Finding) {
    f in Findings(sha, json, files, entries, |entries|)
  }

  predicate DistinctFiles(entries: seq<Entry>) {
    forall i, j | 0 <= i < j < |entries| :: entries[i].file != entries[j].file
  }

  lemma FoundIff(sha: Hash, json: Json, files: Files, entries: seq<Entry>, f: Finding)
    ensures Found(sha, json, files, entries, f) <==>
            exists k :: 0 <= k < |entries| && f.num == entries[k].num && Reports(sha, json, files, entries, k, f.verdict)
  {
    hide Findings, Reports;
    FindingIff(sha, json, files, entries, |entries|, f);
  }

  lemma AllSealed(sha: Hash, json: Json, files: Files, entries: seq<Entry>)
    requires Clean(sha, json, files, entries)
    ensures forall k | 0 <= k < |entries| :: Sealed(sha, json, files, entries, k) && !StartsEarly(json, files, entries, k)
  {
    hide Sealed, StartsEarly, Findings;
    CleanSegments(sha, json, files, entries, |entries|);
  }

  // ---- Files ---------------------------------------------------------------------------

  /** A verdict about a file depends on the entry, its file and the entry before. */
  lemma SameFileSameReport(sha: Hash, json: Json, was: Files, now: Files, entries: seq<Entry>, k: nat, v: Verdict)
    requires k < |entries| && Sealed(sha, json, was, entries, k) && v != OutOfOrder
    requires entries[k].file in now && now[entries[k].file] == was[entries[k].file]
    ensures !Reports(sha, json, now, entries, k, v)
  {
    hide Joined, Scan;
  }

  lemma AlteredReport(sha: Hash, json: Json, files: Files, entries: seq<Entry>, k: nat, content: string)
    requires k < |entries| && Sealed(sha, json, files, entries, k)
    requires CollisionFree(sha, iset{Joined(LinesOf(files, entries[k])), Joined(Scan(content))})
    requires Scan(content) != LinesOf(files, entries[k])
    ensures var now := files[entries[k].file := content];
      forall v | v != OutOfOrder :: Reports(sha, json, now, entries, k, v) <==> v == Tampered
  {
    var e := entries[k];
    NoNewlines(files, e);
    ScanHasNoNewlines(content);
    if sha(Joined(LinesOf(files, e))) == sha(Joined(Scan(content))) { SameLines(sha, LinesOf(files, e), Scan(content)); }
    hide Joined, Scan;
  }

  /**
   * The file of one segment rewritten: TAMPERED for that segment and, order apart,
   * nothing else, unless a reader still gets the same lines, and then no finding at all.
   */
  lemma AlteredLines(sha: Hash, json: Json, files: Files, entries: seq<Entry>, k: nat, content: string)
    requires Clean(sha, json, files, entries) && k < |entries|
    requires CollisionFree(sha, iset{Joined(LinesOf(files, entries[k])), Joined(Scan(content))})
    ensures var now := files[entries[k].file := content];
      if Scan(content) == LinesOf(files, entries[k]) then Clean(sha, json, now, entries)
      else
        && Found(sha, json, now, entries, Finding(entries[k].num, Tampered))
        && (DistinctFiles(entries) ==>
              forall f: Finding | f.verdict != OutOfOrder :: Found(sha, json, now, entries, f) <==> f == Finding(entries[k].num, Tampered))
  {
    hide Findings, StartsEarly, Reports, Joined, Scan, Found, CollisionFree;
    AllSealed(sha, json, files, entries);
    var now := files[entries[k].file := content];
    if Scan(content) == LinesOf(files, entries[k]) {
      SameLinesClean(sha, json, files, entries, k, content);
    } else {
      AlteredReport(sha, json, files, entries, k, content);
      FoundIff(sha, json, now, entries, Finding(entries[k].num, Tampered));
      if DistinctFiles(entries) {
        forall f: Finding | f.verdict != OutOfOrder
          ensures Found(sha, json, now, entries, f) <==> f == Finding(entries[k].num, Tampered)
        {
          FoundIff(sha, json, now, entries, f);
          forall i | 0 <= i < |entries| && i != k ensures !Reports(sha, json, now, entries, i, f.verdict) {
            SameFileSameReport(sha, json, files, now, entries, i, f.verdict);
          }
        }
      }
    }
  }

  /** So `verify` sees neither a carriage return before each newline nor a missing last newline. */
  lemma LineEndsUnseen(sha: Hash, json: Json, files: Files, entries: seq<Entry>, k: nat)
    requires Clean(sha, json, files, entries) && k < |entries|
    requires forall i | 0 <= i < |LinesOf(files, entries[k])| :: Plain(LinesOf(files, entries[k])[i])
    ensures var e, lines := entries[k], LinesOf(files, entries[k]);
      && Clean(sha, json, files[e.file := CrLfFront(lines)], entries)
      && (lines != [] && lines[|lines| - 1] != "" ==>
            JoinedFront(lines) != "" &&
            Clean(sha, json, files[e.file := JoinedFront(lines)[..|JoinedFront(lines)| - 1]], entries))
  {
    hide Findings, StartsEarly, Joined, Scan, CrLfFront, JoinedFront, Plain;
    var lines := LinesOf(files, entries[k]);
    ScanCrLf(lines);
    SameLinesClean(sha, json, files, entries, k, CrLfFront(lines));
    if lines != [] && lines[|lines| - 1] != "" {
      ScanUnended(lines);
      SameLinesClean(sha, json, files, entries, k, JoinedFront(lines)[..|JoinedFront(lines)| - 1]);
    }
  }

  lemma SameLinesClean(sha: Hash, json: Json, files: Files, entries: seq<Entry>, k: nat, content: string)
    requires Clean(sha, json, files, entries) && k < |entries| && Scan(content) == LinesOf(files, entries[k])
    ensures Clean(sha, json, files[entries[k].file := content], entries)
  {
    hide Findings, StartsEarly, Joined, Scan;
    AllSealed(sha, json, files, entries);
    SameContentStill(files, entries, k, content, sha, json);
    SameFindings(sha, json, files, files[entries[k].file := content], entries, |entries|);
  }

  lemma SameContentStill(files: Files, entries: seq<Entry>, k: nat, content: string, sha: Hash, json: Json)
    requires forall i | 0 <= i < |entries| :: Sealed(sha, json, files, entries, i)
    requires k < |entries| && Scan(content) == LinesOf(files, entries[k])
    ensures SameContent(files, files[entries[k].file := content], entries)
  {
    hide Scan, Joined;
    var now := files[entries[k].file := content];
    forall i | 0 <= i < |entries|
      ensures entries[i].file in files && entries[i].file in now && LinesOf(files, entries[i]) == LinesOf(now, entries[i])
    {
      assert Sealed(sha, json, files, entries, i);
    }
  }

  /** The file of one segment removed: MISSING for that segment and, order apart, nothing else. */
  lemma RemovedFile(sha: Hash, json: Json, files: Files, entries: seq<Entry>, k: nat)
    requires Clean(sha, json, files, entries) && k < |entries|
    ensures var now := files - {entries[k].file};
      && Found(sha, json, now, entries, Finding(entries[k].num, Missing))
      && (DistinctFiles(entries) ==>
            forall f: Finding | f.verdict != OutOfOrder :: Found(sha, json, now, entries, f) <==> f == Finding(entries[k].num, Missing))
  {
    hide Findings, StartsEarly, Joined, Scan, Found;
    AllSealed(sha, json, files, entries);
    var now := files - {entries[k].file};
    assert forall v :: Reports(sha, json, now, entries, k, v) <==> v == Missing;
    hide Reports;
    FoundIff(sha, json, now, entries, Finding(entries[k].num, Missing));
    if DistinctFiles(entries) {
      forall f: Finding | f.verdict != OutOfOrder
        ensures Found(sha, json, now, entries, f) <==> f == Finding(entries[k].num, Missing)
      {
        FoundIff(sha, json, now, entries, f);
        forall i | 0 <= i < |entries| && i != k ensures !Reports(sha, json, now, entries, i, f.verdict) {
          SameFileSameReport(sha, json, files, now, entries, i, f.verdict);
        }
      }
    }
  }

  // ---- Manifest entries -----------------------------------------------------------------

  /** What an edit of an entry's own fields is called. */
  predicate EditCalled(e: Entry, s: Entry, v: Verdict) {
    match v
    case Tampered => s.sum != e.sum
    case ChainBroken => s.sum == e.sum && s.prev != e.prev
    case ManifestForged => s.sum == e.sum && s.prev == e.prev && s.chain != e.chain
    case Truncated => s.sum == e.sum && s.prev == e.prev && s.chain == e.chain && s.changes != e.changes
    case _ => false
  }

  lemma EditedHere(sha: Hash, json: Json, files: Files, entries: seq<Entry>, k: nat, s: Entry, v: Verdict)
    requires k < |entries| && Sealed(sha, json, files, entries, k) && s.file == entries[k].file && v != OutOfOrder
    ensures Reports(sha, json, files, entries[k := s], k, v) <==> EditCalled(entries[k], s, v)
  {
    hide Joined, Scan;
  }

  lemma EditedNext(sha: Hash, json: Json, files: Files, entries: seq<Entry>, k: nat, s: Entry, v: Verdict)
    requires k + 1 < |entries| && Sealed(sha, json, files, entries, k + 1) && v != OutOfOrder
    ensures Reports(sha, json, files, entries[k := s], k + 1, v) <==> v == ChainBroken && s.chain != entries[k].chain
  {
    hide Joined, Scan;
  }

  lemma EditedElsewhere(sha: Hash, json: Json, files: Files, entries: seq<Entry>, k: nat, s: Entry, i: nat, v: Verdict)
    requires k < |entries| && i < |entries| && i != k && i != k + 1 && Sealed(sha, json, files, entries, i) && v != OutOfOrder
    ensures !Reports(sha, json, files, entries[k := s], i, v)
  {
    hide Joined, Scan;
  }

  /** Where the file numbers, the starts and the ends are as they were, so is the order. */
  lemma EditedOrder(json: Json, files: Files, entries: seq<Entry>, k: nat, s: Entry, i: nat)
    requires k < |entries| && i < |entries|
    requires s.num == entries[k].num && s.file == entries[k].file && s.start == entries[k].start && s.end == entries[k].end
    ensures StartsEarly(json, files, entries[k := s], i) == StartsEarly(json, files, entries, i)
  {
    hide Scan, AnyGap, Before;
    var now := entries[k := s];
    assert forall j | 0 <= j < |entries| :: now[j].num == entries[j].num && now[j].file == entries[j].file
                                          && now[j].start == entries[j].start && now[j].end == entries[j].end;
    assert GapRecorded(json, files, now, now[i].num) == GapRecorded(json, files, entries, entries[i].num);
    hide GapRecorded;
  }

  /**
   * One entry of the manifest edited, its number and file apart: exactly what `verify`
   * finds.  Only order can add to it, and only if the edit moved a start or an end.
   */
  lemma EditedEntryIff(sha: Hash, json: Json, files: Files, entries: seq<Entry>, k: nat, s: Entry, f: Finding)
    requires Clean(sha, json, files, entries) && k < |entries|
    requires s.num == entries[k].num && s.file == entries[k].file
    requires f.verdict == OutOfOrder ==> s.start == entries[k].start && s.end == entries[k].end
    ensures Found(sha, json, files, entries[k := s], f) <==>
      || (f.num == s.num && EditCalled(entries[k], s, f.verdict))
      || (k + 1 < |entries| && s.chain != entries[k].chain && f == Finding(entries[k + 1].num, ChainBroken))
  {
    hide Findings, StartsEarly, Reports, Found, Sealed, Clean;
    AllSealed(sha, json, files, entries);
    var now, v := entries[k := s], f.verdict;
    FoundIff(sha, json, files, now, f);
    if v == OutOfOrder {
      forall i | 0 <= i < |now| ensures !Reports(sha, json, files, now, i, v) {
        OrderReport(sha, json, files, entries, k, s, i);
      }
    } else {
      EditedHere(sha, json, files, entries, k, s, v);
      if k + 1 < |now| { EditedNext(sha, json, files, entries, k, s, v); }
      forall i | 0 <= i < |now| && i != k && i != k + 1 ensures !Reports(sha, json, files, now, i, v) {
        EditedElsewhere(sha, json, files, entries, k, s, i, v);
      }
    }
  }

  lemma OrderReport(sha: Hash, json: Json, files: Files, entries: seq<Entry>, k: nat, s: Entry, i: nat)
    requires k < |entries| && i < |entries| && Sealed(sha, json, files, entries, i) && !StartsEarly(json, files, entries, i)
    requires s.num == entries[k].num && s.file == entries[k].file && s.start == entries[k].start && s.end == entries[k].end
    ensures !Reports(sha, json, files, entries[k := s], i, OutOfOrder)
  {
    hide StartsEarly, Joined, Scan;
    EditedOrder(json, files, entries, k, s, i);
  }

  // ---- Entries removed, reordered, repeated ---------------------------------------------

  /** Nothing found but breaks in order. */
  ghost predicate OnlyOrder(sha: Hash, json: Json, files: Files, entries: seq<Entry>) {
    forall f | Found(sha, json, files, entries, f) :: f.verdict == OutOfOrder
  }

  /** The only entry of an archive that verified which follows its first n is the next. */
  lemma NextEntry(sha: Hash, json: Json, files: Files, a: seq<Entry>, n: nat, s: Entry)
    requires HexDigests(sha) && CollisionFree(sha, HashInputs(files, a))
    requires forall k | 0 <= k < |a| :: Sealed(sha, json, files, a, k)
    requires n <= |a| && s in a && s.prev == Head(a[..n])
    ensures n < |a| && s == a[n]
  {
    hide HexDigests, CollisionFree, HashInputs, Head, Joined, Scan;
    var m: nat :| m < |a| && a[m] == s;
    assert Sealed(sha, json, files, a, m);
    HeadIsPrev(a, m);
    assert HashInputs(files, a) + HashInputs(files, a) == HashInputs(files, a);
    hide Sealed;
    SameChain(sha, json, files, a, m, files, a, n);
  }

  lemma {:induction false} Rearranged(sha: Hash, json: Json, files: Files, a: seq<Entry>, b: seq<Entry>, n: nat)
    requires HexDigests(sha) && CollisionFree(sha, HashInputs(files, a))
    requires forall k | 0 <= k < |a| :: Sealed(sha, json, files, a, k)
    requires (forall s | s in b :: s in a) && n <= |b| && forall k | 0 <= k < n :: b[k].prev == PrevChain(b, k)
    ensures n <= |a| && b[..n] == a[..n]
  {
    hide HexDigests, CollisionFree, HashInputs, Sealed, Head, PrevChain;
    if n > 0 {
      Rearranged(sha, json, files, a, b, n - 1);
      HeadIsPrev(b, n - 1);
      assert b[n - 1] in b;
      NextEntry(sha, json, files, a, n - 1, b[n - 1]);
      assert b[..n] == b[..n - 1] + [b[n - 1]] && a[..n] == a[..n - 1] + [a[n - 1]];
    }
  }

  /** An entry of an archive that verified, wherever it stands: only its predecessor can be wrong. */
  lemma MovedReport(sha: Hash, json: Json, files: Files, a: seq<Entry>, m: nat, b: seq<Entry>, k: nat, v: Verdict)
    requires m < |a| && k < |b| && a[m] == b[k] && Sealed(sha, json, files, a, m) && v != OutOfOrder
    ensures Reports(sha, json, files, b, k, v) <==> v == ChainBroken && b[k].prev != PrevChain(b, k)
  {
    hide Joined, Scan;
  }

  /**
   * Whatever is made of the entries of an archive that verified, by removing some,
   * changing their order or repeating them: nothing is found, order apart, if and only
   * if they are its first entries.  Else some entry is CHAIN BROKEN.
   */
  lemma RearrangedIff(sha: Hash, json: Json, files: Files, a: seq<Entry>, b: seq<Entry>)
    requires HexDigests(sha) && CollisionFree(sha, HashInputs(files, a))
    requires Clean(sha, json, files, a) && forall s | s in b :: s in a
    ensures OnlyOrder(sha, json, files, b) <==> b <= a
    ensures forall f | Found(sha, json, files, b, f) :: f.verdict == OutOfOrder || f.verdict == ChainBroken
  {
    hide HexDigests, CollisionFree, HashInputs, StartsEarly, Findings, Clean, Found, Sealed, Reports;
    AllSealed(sha, json, files, a);
    forall k, v | 0 <= k < |b| && v != OutOfOrder
      ensures Reports(sha, json, files, b, k, v) <==> v == ChainBroken && b[k].prev != PrevChain(b, k)
    {
      assert b[k] in b;
      var m: nat :| m < |a| && a[m] == b[k];
      MovedReport(sha, json, files, a, m, b, k, v);
    }
    forall f: Finding { FoundIff(sha, json, files, b, f); }
    if OnlyOrder(sha, json, files, b) {
      forall k | 0 <= k < |b| ensures b[k].prev == PrevChain(b, k) {
        assert Found(sha, json, files, b, Finding(b[k].num, ChainBroken)) <== Reports(sha, json, files, b, k, ChainBroken);
      }
      Rearranged(sha, json, files, a, b, |b|);
      assert b == b[..|b|];
    }
    if b <= a {
      forall k | 0 <= k < |b| ensures b[k].prev == PrevChain(b, k) { PrefixFollows(sha, json, files, a, b, k); }
    }
  }

  lemma PrefixFollows(sha: Hash, json: Json, files: Files, a: seq<Entry>, b: seq<Entry>, k: nat)
    requires b <= a && k < |b| && Sealed(sha, json, files, a, k)
    ensures b[k].prev == PrevChain(b, k)
  {
    hide Joined, Scan;
    assert b[k] == a[k] && (k > 0 ==> b[k - 1] == a[k - 1]);
  }

  /** An entry removed: the one after it is CHAIN BROKEN and, order apart, nothing else is found. */
  lemma RemovedEntry(sha: Hash, json: Json, files: Files, a: seq<Entry>, k: nat, f: Finding)
    requires HexDigests(sha) && CollisionFree(sha, HashInputs(files, a))
    requires Clean(sha, json, files, a) && k < |a| && f.verdict != OutOfOrder
    ensures Found(sha, json, files, a[..k] + a[k + 1..], f) <==> k + 1 < |a| && f == Finding(a[k + 1].num, ChainBroken)
  {
    hide HexDigests, CollisionFree, HashInputs, StartsEarly, Findings, Clean, Found, Reports, Sealed;
    AllSealed(sha, json, files, a);
    var b := a[..k] + a[k + 1..];
    FoundIff(sha, json, files, b, f);
    assert k < |b| ==> b[k] == a[k + 1];
    forall i | 0 <= i < |b|
      ensures Reports(sha, json, files, b, i, f.verdict) <==> f.verdict == ChainBroken && i == k
    {
      RemovedReport(sha, json, files, a, k, i, f.verdict);
    }
  }

  lemma RemovedReport(sha: Hash, json: Json, files: Files, a: seq<Entry>, k: nat, i: nat, v: Verdict)
    requires HexDigests(sha) && CollisionFree(sha, HashInputs(files, a))
    requires (forall j | 0 <= j < |a| :: Sealed(sha, json, files, a, j)) && k < |a| && i + 1 < |a| && v != OutOfOrder
    ensures Reports(sha, json, files, a[..k] + a[k + 1..], i, v) <==> v == ChainBroken && i == k
  {
    hide HexDigests, CollisionFree, HashInputs, Reports, Sealed, Head;
    var b := a[..k] + a[k + 1..];
    var m := if i < k then i else i + 1;
    MovedReport(sha, json, files, a, m, b, i, v);
    PrefixFollows(sha, json, files, a, a, m);
    assert PrevChain(b, i) == (if i <= k then PrevChain(a, i) else PrevChain(a, m));
    if i == k {
      HeadIsPrev(a, k);
      SameEntry(sha, json, files, a, k);
    }
  }

  lemma SameEntry(sha: Hash, json: Json, files: Files, a: seq<Entry>, k: nat)
    requires HexDigests(sha) && CollisionFree(sha, HashInputs(files, a))
    requires (forall j | 0 <= j < |a| :: Sealed(sha, json, files, a, j)) && k + 1 < |a|
    ensures a[k + 1].prev != Head(a[..k])
  {
    hide HexDigests, CollisionFree, HashInputs, Sealed, Head;
    assert HashInputs(files, a) + HashInputs(files, a) == HashInputs(files, a);
    PrefixFollows(sha, json, files, a, a, k + 1);
    HeadIsPrev(a, k + 1);
    if Head(a[..k + 1]) == Head(a[..k]) { SameChain(sha, json, files, a, k + 1, files, a, k); }
  }
}
