/** `VerifyArchive`: every file hashed again, the chain walked, the order checked. */
module Verifying {
  import opened Options
  import opened Text
  import opened Sha
  import opened Lsn
  import opened Archives

  datatype Verdict = Missing | Tampered | ChainBroken | ManifestForged | Truncated | Corrupt | OutOfOrder

  datatype Finding = Finding(num: nat, verdict: Verdict)

  type Files = map<nat, string>

  function BadLines(json: Json, lines: seq<string>): nat {
    if lines == [] then 0
    else BadLines(json, lines[..|lines| - 1]) + if json(lines[|lines| - 1]).None? then 1 else 0
  }

  predicate AnyGap(json: Json, lines: seq<string>) {
    exists i | 0 <= i < |lines| :: json(lines[i]) == Some(true)
  }

  /** A recorded gap in this segment or the one before explains a break in order. */
  predicate GapRecorded(json: Json, files: Files, entries: seq<Entry>, num: nat) {
    exists i | 0 <= i < |entries| ::
      (entries[i].num == num || entries[i].num + 1 == num) &&
      entries[i].file in files && AnyGap(json, Scan(files[entries[i].file]))
  }

  /** The first thing wrong with a segment that could be read. */
  function ContentVerdict(sha: Hash, json: Json, e: Entry, lines: seq<string>, prev: string): Option<Verdict> {
    if sha(Joined(lines)) != e.sum then Some(Tampered)
    else if e.prev != prev then Some(ChainBroken)
    else if sha(prev + "|" + e.sum) != e.chain then Some(ManifestForged)
    else if |lines| != e.changes then Some(Truncated)
    else if BadLines(json, lines) > 0 then Some(Corrupt)
    else None
  }

  predicate Misplaced(json: Json, files: Files, entries: seq<Entry>, e: Entry, prevEnd: string) {
    prevEnd != "" && e.start != "" && !GapRecorded(json, files, entries, e.num) && Before(e.start, prevEnd)
  }

  function Listed(num: nat, v: Option<Verdict>): seq<Finding> {
    if v.None? then [] else [Finding(num, v.value)]
  }

  function SegmentFindings(sha: Hash, json: Json, files: Files, entries: seq<Entry>,
                           e: Entry, prev: string, prevEnd: string): seq<Finding> {
    if e.file !in files then [Finding(e.num, Missing)]
    else
      Listed(e.num, ContentVerdict(sha, json, e, Scan(files[e.file]), prev)) +
      if Misplaced(json, files, entries, e, prevEnd) then [Finding(e.num, OutOfOrder)] else []
  }

  /** What the previous readable segment ended with. */
  function PrevEnd(files: Files, entries: seq<Entry>, k: nat): string
    requires k <= |entries|
  {
    if k == 0 then ""
    else if entries[k - 1].file in files then entries[k - 1].end
    else PrevEnd(files, entries, k - 1)
  }

  function Findings(sha: Hash, json: Json, files: Files, entries: seq<Entry>, k: nat): seq<Finding>
    requires k <= |entries|
  {
    if k == 0 then []
    else
      Findings(sha, json, files, entries, k - 1) +
      SegmentFindings(sha, json, files, entries, entries[k - 1],
                      Head(entries[..k - 1]), PrevEnd(files, entries, k - 1))
  }

  predicate Clean(sha: Hash, json: Json, files: Files, entries: seq<Entry>) {
    Findings(sha, json, files, entries, |entries|) == []
  }

  // ---- What each verdict means ---------------------------------------------------

  /** When a segment whose file could be read, following a segment with this chain hash, is given this verdict. */
  predicate Says(sha: Hash, json: Json, e: Entry, lines: seq<string>, prev: string, v: Verdict) {
    var hashed, linked, own, counted :=
      sha(Joined(lines)) == e.sum, e.prev == prev, e.chain == sha(prev + "|" + e.sum), e.changes == |lines|;
    match v
    case Missing => false
    case Tampered => !hashed
    case ChainBroken => hashed && !linked
    case ManifestForged => hashed && linked && !own
    case Truncated => hashed && linked && own && !counted
    case Corrupt => hashed && linked && own && counted && exists i :: 0 <= i < |lines| && json(lines[i]) == None
    case OutOfOrder => false
  }

  /** The chain hash a segment has to follow. */
  function PrevChain(entries: seq<Entry>, k: nat): string
    requires k < |entries|
  {
    if k == 0 then "" else entries[k - 1].chain
  }

  /** The last segment before this one whose file could be read ended after this one starts, and no gap was recorded. */
  predicate StartsEarly(json: Json, files: Files, entries: seq<Entry>, k: nat)
    requires k < |entries|
  {
    exists j :: 0 <= j < k && entries[j].file in files && (forall m | j < m < k :: entries[m].file !in files) &&
      entries[j].end != "" && entries[k].start != "" && Before(entries[k].start, entries[j].end) &&
      !GapRecorded(json, files, entries, entries[k].num)
  }

  /** When the archive's segment k is given this verdict. */
  predicate Reports(sha: Hash, json: Json, files: Files, entries: seq<Entry>, k: nat, v: Verdict)
    requires k < |entries|
  {
    if entries[k].file !in files then v == Missing
    else if v == OutOfOrder then StartsEarly(json, files, entries, k)
    else Says(sha, json, entries[k], Scan(files[entries[k].file]), PrevChain(entries, k), v)
  }

  lemma {:induction false} NoneBad(json: Json, lines: seq<string>)
    ensures BadLines(json, lines) > 0 <==> exists i :: 0 <= i < |lines| && json(lines[i]) == None
    decreases |lines|
  {
    if lines != [] {
      var n := |lines| - 1;
      NoneBad(json, lines[..n]);
      if json(lines[n]).Some? && BadLines(json, lines[..n]) > 0 {
        var i :| 0 <= i < n && json(lines[..n][i]) == None;
        assert json(lines[i]) == None;
      }
    }
  }

  lemma ContentSays(sha: Hash, json: Json, e: Entry, lines: seq<string>, prev: string)
    ensures forall v :: Says(sha, json, e, lines, prev, v) <==> ContentVerdict(sha, json, e, lines, prev) == Some(v)
  {
    NoneBad(json, lines);
    hide BadLines, Joined;
  }

  lemma {:induction false} PrevEndIs(files: Files, entries: seq<Entry>, k: nat)
    requires k <= |entries|
    ensures PrevEnd(files, entries, k) == "" ||
            exists j :: 0 <= j < k && entries[j].file in files && (forall m | j < m < k :: entries[m].file !in files) &&
              PrevEnd(files, entries, k) == entries[j].end
    ensures forall j | 0 <= j < k && entries[j].file in files && (forall m | j < m < k :: entries[m].file !in files) ::
              PrevEnd(files, entries, k) == entries[j].end
    decreases k
  {
    if k > 0 && entries[k - 1].file !in files { PrevEndIs(files, entries, k - 1); }
  }

  lemma HeadIsPrev(entries: seq<Entry>, k: nat)
    requires k < |entries|
    ensures Head(entries[..k]) == PrevChain(entries, k)
  {
  }

  lemma MisplacedIff(json: Json, files: Files, entries: seq<Entry>, k: nat)
    requires k < |entries|
    ensures Misplaced(json, files, entries, entries[k], PrevEnd(files, entries, k)) <==> StartsEarly(json, files, entries, k)
  {
    PrevEndIs(files, entries, k);
    hide GapRecorded, Before, PrevEnd;
  }

  lemma SegmentReports(sha: Hash, json: Json, files: Files, entries: seq<Entry>, k: nat, f: Finding)
    requires k < |entries|
    ensures f in SegmentFindings(sha, json, files, entries, entries[k], Head(entries[..k]), PrevEnd(files, entries, k)) <==>
            f.num == entries[k].num && Reports(sha, json, files, entries, k, f.verdict)
  {
    var e := entries[k];
    HeadIsPrev(entries, k);
    MisplacedIff(json, files, entries, k);
    if e.file in files { ContentSays(sha, json, e, Scan(files[e.file]), PrevChain(entries, k)); }
    hide ContentVerdict, Scan, Misplaced, StartsEarly, Head, PrevEnd, PrevChain, Says;
  }

  /** The findings are exactly those: each verdict has its own condition on the segment it is about. */
  lemma {:induction false} FindingIff(sha: Hash, json: Json, files: Files, entries: seq<Entry>, n: nat, f: Finding)
    requires n <= |entries|
    ensures f in Findings(sha, json, files, entries, n) <==>
            exists k :: 0 <= k < n && f.num == entries[k].num && Reports(sha, json, files, entries, k, f.verdict)
    decreases n
  {
    hide Reports, SegmentFindings, PrevEnd, Head;
    if n > 0 {
      FindingIff(sha, json, files, entries, n - 1, f);
      SegmentReports(sha, json, files, entries, n - 1, f);
    }
  }

  // ---- The program ------------------------------------------------------------

  method FindGap(json: Json, files: Files, entries: seq<Entry>, num: nat) returns (found: bool)
    ensures found == GapRecorded(json, files, entries, num)
  {
    hide Scan;
    for i := 0 to |entries|
      invariant forall m | 0 <= m < i ::
        !((entries[m].num == num || entries[m].num + 1 == num) &&
          entries[m].file in files && AnyGap(json, Scan(files[entries[m].file])))
    {
      var e := entries[i];
      if e.num != num && e.num + 1 != num {
        continue;
      }
      if e.file !in files {
        continue;
      }
      var lines := Scan(files[e.file]);
      for j := 0 to |lines|
        invariant forall m | 0 <= m < j :: json(lines[m]) != Some(true)
      {
        if json(lines[j]) == Some(true) {
          return true;
        }
      }
    }
    return false;
  }

  /** One pass over a file: its hash input, its lines, and those that do not parse. */
  method Rehash(json: Json, content: seq<string>) returns (hashed: string, lines: nat, badJson: nat)
    ensures hashed == Joined(content) && lines == |content| && badJson == BadLines(json, content)
  {
    hashed, lines, badJson := "", 0, 0;
    for i := 0 to |content|
      invariant hashed == Joined(content[..i]) && lines == i && badJson == BadLines(json, content[..i])
    {
      assert content[..i + 1][..i] == content[..i];
      hashed := hashed + content[i] + "\n";
      lines := lines + 1;
      if json(content[i]).None? {
        badJson := badJson + 1;
      }
    }
    assert content[..|content|] == content;
  }

  lemma FindingsNext(sha: Hash, json: Json, files: Files, entries: seq<Entry>, k: nat)
    requires k < |entries|
    ensures Findings(sha, json, files, entries, k + 1) ==
      Findings(sha, json, files, entries, k) +
      SegmentFindings(sha, json, files, entries, entries[k], Head(entries[..k]), PrevEnd(files, entries, k))
    ensures Head(entries[..k + 1]) == entries[k].chain
    ensures PrevEnd(files, entries, k + 1) ==
      if entries[k].file in files then entries[k].end else PrevEnd(files, entries, k)
  {
    hide SegmentFindings;
  }

  method VerifyArchive(sha: Hash, json: Json, files: Files, entries: seq<Entry>) returns (out: seq<Finding>)
    ensures out == Findings(sha, json, files, entries, |entries|)
    ensures forall f :: f in out <==>
              exists k :: 0 <= k < |entries| && f.num == entries[k].num && Reports(sha, json, files, entries, k, f.verdict)
  {
    hide GapRecorded, Before, Joined, Scan, BadLines, Reports;
    forall f {
      FindingIff(sha, json, files, entries, |entries|, f);
    }
    out := [];
    var prevChain, prevEnd := "", "";
    assert out == Findings(sha, json, files, entries, 0);
    assert prevChain == Head(entries[..0]) && prevEnd == PrevEnd(files, entries, 0);
    hide Findings, Head, PrevEnd;
    for k := 0 to |entries|
      invariant out == Findings(sha, json, files, entries, k)
      invariant prevChain == Head(entries[..k]) && prevEnd == PrevEnd(files, entries, k)
    {
      var seg := entries[k];
      FindingsNext(sha, json, files, entries, k);
      if seg.file !in files {
        out := out + [Finding(seg.num, Missing)];
        prevChain := seg.chain;
        continue;
      }
      var found := VerifySegment(sha, json, files, entries, seg, prevChain, prevEnd);
      out := out + found;
      prevChain := seg.chain;
      prevEnd := seg.end;
    }
  }

  method VerifySegment(sha: Hash, json: Json, files: Files, entries: seq<Entry>,
                       seg: Entry, prevChain: string, prevEnd: string) returns (out: seq<Finding>)
    requires seg.file in files
    ensures out == SegmentFindings(sha, json, files, entries, seg, prevChain, prevEnd)
    ensures forall f :: f in out <==>
              f.num == seg.num &&
              if f.verdict == OutOfOrder
              then prevEnd != "" && seg.start != "" && Before(seg.start, prevEnd) && !GapRecorded(json, files, entries, seg.num)
              else Says(sha, json, seg, Scan(files[seg.file]), prevChain, f.verdict)
  {
    ContentSays(sha, json, seg, Scan(files[seg.file]), prevChain);
    hide GapRecorded, Before, Joined, Scan, BadLines, Says;
    out := [];
    var content := Scan(files[seg.file]);
    var hashed, lines, badJson := Rehash(json, content);
    if sha(hashed) != seg.sum {
      out := out + [Finding(seg.num, Tampered)];
    } else if seg.prev != prevChain {
      out := out + [Finding(seg.num, ChainBroken)];
    } else if sha(prevChain + "|" + seg.sum) != seg.chain {
      out := out + [Finding(seg.num, ManifestForged)];
    } else if lines != seg.changes {
      out := out + [Finding(seg.num, Truncated)];
    } else if badJson > 0 {
      out := out + [Finding(seg.num, Corrupt)];
    }
    assert out == Listed(seg.num, ContentVerdict(sha, json, seg, content, prevChain));
    var explained := FindGap(json, files, entries, seg.num);
    if prevEnd != "" && seg.start != "" && !explained && Before(seg.start, prevEnd) {
      out := out + [Finding(seg.num, OutOfOrder)];
    }
  }

  // ---- What a clean verdict means ---------------------------------------------------

  function LinesOf(files: Files, e: Entry): seq<string> {
    if e.file in files then Scan(files[e.file]) else []
  }

  /** What `verify` checks of one segment, order apart. */
  predicate Sealed(sha: Hash, json: Json, files: Files, entries: seq<Entry>, k: nat)
    requires k < |entries|
  {
    var e := entries[k];
    && e.file in files
    && e.sum == sha(Joined(LinesOf(files, e)))
    && e.prev == PrevChain(entries, k)
    && e.chain == sha(PrevChain(entries, k) + "|" + e.sum)
    && e.changes == |LinesOf(files, e)|
    && forall i | 0 <= i < |LinesOf(files, e)| :: json(LinesOf(files, e)[i]).Some?
  }

  lemma SegmentClean(sha: Hash, json: Json, files: Files, entries: seq<Entry>, k: nat)
    requires k < |entries|
    ensures SegmentFindings(sha, json, files, entries, entries[k], Head(entries[..k]), PrevEnd(files, entries, k)) == [] <==>
      Sealed(sha, json, files, entries, k) && !StartsEarly(json, files, entries, k)
  {
    HeadIsPrev(entries, k);
    NoneBad(json, LinesOf(files, entries[k]));
    MisplacedIff(json, files, entries, k);
    hide Misplaced, StartsEarly, Scan, Head, PrevEnd, PrevChain, BadLines, Joined;
  }

  /**
   * No findings, if and only if every file is there, has the recorded hash and as many
   * lines as recorded, all of them records, and every entry follows the one before it,
   * is its own link, and does not start early.
   */
  lemma {:induction false} CleanSegments(sha: Hash, json: Json, files: Files, entries: seq<Entry>, n: nat)
    requires n <= |entries|
    ensures Findings(sha, json, files, entries, n) == [] <==>
      forall k | 0 <= k < n :: Sealed(sha, json, files, entries, k) && !StartsEarly(json, files, entries, k)
    decreases n
  {
    hide StartsEarly, SegmentFindings, Sealed, PrevEnd, Head;
    if n > 0 {
      CleanSegments(sha, json, files, entries, n - 1);
      SegmentClean(sha, json, files, entries, n - 1);
    }
  }

  /** Every string hashed when this archive is verified. */
  ghost function HashInputs(files: Files, entries: seq<Entry>): iset<string> {
    (iset k | 0 <= k < |entries| :: Head(entries[..k]) + "|" + entries[k].sum) +
    (iset k | 0 <= k < |entries| :: Joined(LinesOf(files, entries[k])))
  }

  lemma HeadIsDigest(sha: Hash, json: Json, files: Files, entries: seq<Entry>, n: nat)
    requires n <= |entries| && HexDigests(sha) && forall k | 0 <= k < n :: Sealed(sha, json, files, entries, k)
    ensures NoBar(Head(entries[..n])) && (Head(entries[..n]) == "" <==> n == 0)
  {
    if n > 0 {
      var e := entries[n - 1];
      assert Sealed(sha, json, files, entries, n - 1);
      assert entries[..n][n - 1] == e && e.chain == sha(Head(entries[..n - 1]) + "|" + e.sum);
    }
  }

  lemma {:induction false} SameLines(sha: Hash, a: seq<string>, b: seq<string>)
    requires sha(Joined(a)) == sha(Joined(b))
    requires CollisionFree(sha, iset{Joined(a), Joined(b)})
    requires (forall i | 0 <= i < |a| :: NoNewline(a[i])) && (forall i | 0 <= i < |b| :: NoNewline(b[i]))
    ensures a == b
  {
    SameJoin(a);
    SameJoin(b);
    JoinedInjective(a, b);
  }

  /** One step back along two chains with the same head. */
  lemma {:induction false} SameLink(sha: Hash, json: Json, af: Files, a: seq<Entry>, m: nat,
                                    bf: Files, b: seq<Entry>, n: nat)
    requires HexDigests(sha) && CollisionFree(sha, HashInputs(af, a) + HashInputs(bf, b))
    requires 0 < m <= |a| && 0 < n <= |b| && Head(a[..m]) == Head(b[..n])
    requires forall k | 0 <= k < m :: Sealed(sha, json, af, a, k)
    requires forall k | 0 <= k < n :: Sealed(sha, json, bf, b, k)
    ensures Head(a[..m - 1]) == Head(b[..n - 1])
    ensures LinesOf(af, a[m - 1]) == LinesOf(bf, b[n - 1])
  {
    hide HexDigests, LinesOf, Head, Sealed, NoNewline, Joined, CollisionFree, HashInputs;
    var e, f := a[m - 1], b[n - 1];
    var ap, bp := Head(a[..m - 1]), Head(b[..n - 1]);
    var al, bl := LinesOf(af, e), LinesOf(bf, f);
    LinkParts(sha, json, af, a, m);
    LinkParts(sha, json, bf, b, n);
    var all := HashInputs(af, a) + HashInputs(bf, b);
    NoCollision(sha, ap + "|" + e.sum, bp + "|" + f.sum, all);
    CutField(ap, e.sum, bp, f.sum);
    FewerInputs(sha, iset{Joined(al), Joined(bl)}, all);
    NoNewlines(af, e);
    NoNewlines(bf, f);
    SameLines(sha, al, bl);
  }

  lemma NoCollision(sha: Hash, x: string, y: string, all: iset<string>)
    requires CollisionFree(sha, all) && x in all && y in all && sha(x) == sha(y)
    ensures x == y
  {
  }

  /** What a sealed entry's fields are the hashes of. */
  lemma LinkParts(sha: Hash, json: Json, files: Files, entries: seq<Entry>, n: nat)
    requires HexDigests(sha) && 0 < n <= |entries| && forall k | 0 <= k < n :: Sealed(sha, json, files, entries, k)
    ensures var e, prev := entries[n - 1], Head(entries[..n - 1]);
      NoBar(prev) && Head(entries[..n]) == e.chain == sha(prev + "|" + e.sum) &&
      e.sum == sha(Joined(LinesOf(files, e))) &&
      prev + "|" + e.sum in HashInputs(files, entries) && Joined(LinesOf(files, e)) in HashInputs(files, entries)
  {
    hide HexDigests, LinesOf, BadLines, Joined;
    HeadIsDigest(sha, json, files, entries, n - 1);
    assert Sealed(sha, json, files, entries, n - 1);
  }

  lemma NoNewlines(files: Files, e: Entry)
    ensures forall i | 0 <= i < |LinesOf(files, e)| :: NoNewline(LinesOf(files, e)[i])
  {
    if e.file in files { ScanHasNoNewlines(files[e.file]); }
  }

  lemma {:induction false} SameChain(sha: Hash, json: Json, af: Files, a: seq<Entry>, m: nat,
                                     bf: Files, b: seq<Entry>, n: nat)
    requires HexDigests(sha) && CollisionFree(sha, HashInputs(af, a) + HashInputs(bf, b))
    requires m <= |a| && n <= |b| && Head(a[..m]) == Head(b[..n])
    requires forall k | 0 <= k < m :: Sealed(sha, json, af, a, k)
    requires forall k | 0 <= k < n :: Sealed(sha, json, bf, b, k)
    ensures m == n && forall k | 0 <= k < m :: LinesOf(af, a[k]) == LinesOf(bf, b[k])
    decreases m
  {
    hide CollisionFree, HashInputs, Head, LinesOf, Sealed;
    HeadIsDigest(sha, json, af, a, m);
    HeadIsDigest(sha, json, bf, b, n);
    if m > 0 && n > 0 {
      SameLink(sha, json, af, a, m, bf, b, n);
      SameChain(sha, json, af, a, m - 1, bf, b, n - 1);
    }
  }

  /** Two clean archives with the same last chain hash hold the same lines, segment by segment. */
  lemma {:induction false} HeadDeterminesArchive(sha: Hash, json: Json, af: Files, a: seq<Entry>,
                                                 bf: Files, b: seq<Entry>)
    requires HexDigests(sha) && CollisionFree(sha, HashInputs(af, a) + HashInputs(bf, b))
    requires Clean(sha, json, af, a) && Clean(sha, json, bf, b) && Head(a) == Head(b)
    ensures |a| == |b|
    ensures forall k | 0 <= k < |a| ::
      a[k].file in af && b[k].file in bf && LinesOf(af, a[k]) == LinesOf(bf, b[k])
  {
    hide CollisionFree, HashInputs, Head, LinesOf, HexDigests, Findings, StartsEarly, PrevChain, Joined;
    CleanSegments(sha, json, af, a, |a|);
    CleanSegments(sha, json, bf, b, |b|);
    assert a[..|a|] == a && b[..|b|] == b;
    SameChain(sha, json, af, a, |a|, bf, b, |b|);
    forall k | 0 <= k < |a| ensures a[k].file in af && b[k].file in bf {
      assert Sealed(sha, json, af, a, k) && Sealed(sha, json, bf, b, k);
    }
  }

  // ---- Altered files ---------------------------------------------------------------

  predicate SameContent(af: Files, bf: Files, entries: seq<Entry>) {
    forall k | 0 <= k < |entries| ::
      entries[k].file in af && entries[k].file in bf && LinesOf(af, entries[k]) == LinesOf(bf, entries[k])
  }

  /** Of an archive that verifies, exactly the same lines verify again. */
  lemma {:induction false} VerifySeesEveryLine(sha: Hash, json: Json, was: Files, now: Files, entries: seq<Entry>)
    requires HexDigests(sha) && CollisionFree(sha, HashInputs(was, entries) + HashInputs(now, entries))
    requires Clean(sha, json, was, entries)
    ensures Clean(sha, json, now, entries) <==> SameContent(was, now, entries)
  {
    hide CollisionFree, HashInputs, Head, HexDigests, Findings, LinesOf;
    if Clean(sha, json, now, entries) {
      HeadDeterminesArchive(sha, json, was, entries, now, entries);
    }
    if SameContent(was, now, entries) {
      SameFindings(sha, json, was, now, entries, |entries|);
    }
  }

  lemma {:induction false} SameFindings(sha: Hash, json: Json, was: Files, now: Files, entries: seq<Entry>, n: nat)
    requires SameContent(was, now, entries) && n <= |entries|
    ensures Findings(sha, json, now, entries, n) == Findings(sha, json, was, entries, n)
    ensures PrevEnd(now, entries, n) == PrevEnd(was, entries, n)
    decreases n
  {
    hide SegmentFindings, SameContent, Head;
    if n > 0 {
      SameFindings(sha, json, was, now, entries, n - 1);
      SameSegment(sha, json, was, now, entries, n - 1, Head(entries[..n - 1]), PrevEnd(was, entries, n - 1));
    }
  }

  lemma SameSegment(sha: Hash, json: Json, was: Files, now: Files, entries: seq<Entry>, k: nat, prev: string, prevEnd: string)
    requires SameContent(was, now, entries) && k < |entries|
    ensures entries[k].file in was && entries[k].file in now
    ensures SegmentFindings(sha, json, now, entries, entries[k], prev, prevEnd) ==
            SegmentFindings(sha, json, was, entries, entries[k], prev, prevEnd)
  {
    hide ContentVerdict, Scan, Before, GapRecorded;
    SameGaps(json, was, now, entries, entries[k].num);
    assert LinesOf(was, entries[k]) == LinesOf(now, entries[k]);
  }

  lemma SameGaps(json: Json, was: Files, now: Files, entries: seq<Entry>, num: nat)
    requires SameContent(was, now, entries)
    ensures GapRecorded(json, now, entries, num) == GapRecorded(json, was, entries, num)
  {
    hide Scan, AnyGap;
    forall i | 0 <= i < |entries|
      ensures entries[i].file in now && entries[i].file in was && Scan(now[entries[i].file]) == Scan(was[entries[i].file])
    {
      assert LinesOf(now, entries[i]) == LinesOf(was, entries[i]);
    }
  }
}
