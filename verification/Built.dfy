/** What `verify` says of an archive that only `Append` and `Rotate` have written. */
module Built {
  import opened Options
  import opened Sha
  import opened Lsn
  import opened Archives
  import opened Verifying

  predicate AllWritable(json: Json, batches: seq<seq<Line>>) {
    forall k, i | 0 <= k < |batches| && 0 <= i < |batches[k]| :: Writable(json, batches[k][i])
  }

  /** Whatever the lines hold, they read back as lines. */
  predicate AllPlain(batches: seq<seq<Line>>) {
    forall k, i | 0 <= k < |batches| && 0 <= i < |batches[k]| :: Plain(batches[k][i].text)
  }

  lemma WritableIsPlain(json: Json, batches: seq<seq<Line>>)
    requires AllWritable(json, batches)
    ensures AllPlain(batches)
  {
    hide Plain;
    forall k, i | 0 <= k < |batches| && 0 <= i < |batches[k]| ensures Plain(batches[k][i].text) {
      assert Writable(json, batches[k][i]);
    }
  }

  predicate HasGap(b: seq<Line>) {
    exists i | 0 <= i < |b| :: b[i].gap
  }

  function First(b: seq<Line>): nat
    requires b != []
  {
    b[0].lsn
  }

  function Last(b: seq<Line>): nat
    requires b != []
  {
    b[|b| - 1].lsn
  }

  predicate InOrderAt(batches: seq<seq<Line>>, k: nat)
    requires NoneEmpty(batches) && 1 <= k < |batches|
  {
    HasGap(batches[k - 1]) || HasGap(batches[k]) || !Before(LsnText(First(batches[k])), LsnText(Last(batches[k - 1])))
  }

  /** Between each segment and the next, a gap is recorded or the LSNs order as text. */
  predicate ReadsInOrder(batches: seq<seq<Line>>)
    requires NoneEmpty(batches)
  {
    forall k | 1 <= k < |batches| :: InOrderAt(batches, k)
  }

  lemma {:induction false} EntriesAt(sha: Hash, batches: seq<seq<Line>>, k: nat)
    requires NoneEmpty(batches) && k < |batches|
    ensures var es := Entries(sha, batches);
      es[k] == EntryFor(sha, es[..k], batches[k]) && es[k].num == k + 1
    decreases |batches|
  {
    hide EntryFor;
    var n := |batches| - 1;
    var es, earlier := Entries(sha, batches), Entries(sha, batches[..n]);
    assert es[..n] == earlier;
    if k < n {
      EntriesAt(sha, batches[..n], k);
      assert earlier[..k] == es[..k];
    } else {
      NumOf(sha, earlier, batches[n]);
    }
  }

  lemma NumOf(sha: Hash, es: seq<Entry>, b: seq<Line>)
    requires b != []
    ensures EntryFor(sha, es, b).num == |es| + 1
  {
  }

  lemma {:induction false} ReadsBack(files: Files, batches: seq<seq<Line>>, k: nat)
    requires AllPlain(batches) && Holds(files, batches) && k < |batches|
    ensures k + 1 in files && Scan(files[k + 1]) == Texts(batches[k])
  {
    hide Scan, Joined;
    var lines := Texts(batches[k]);
    assert files[k + 1] == Joined(Texts(batches[k + 1 - 1]));
    assert forall i | 0 <= i < |lines| :: lines[i] == batches[k][i].text && Plain(batches[k][i].text);
    SameJoin(lines);
    ScanJoined(lines);
  }

  lemma {:induction false} GapsRead(json: Json, files: Files, batches: seq<seq<Line>>, k: nat)
    requires AllWritable(json, batches) && Holds(files, batches) && k < |batches|
    ensures k + 1 in files && (AnyGap(json, Scan(files[k + 1])) <==> HasGap(batches[k]))
  {
    hide Scan, Holds;
    WritableIsPlain(json, batches);
    ReadsBack(files, batches, k);
    var lines := Texts(batches[k]);
    assert forall i | 0 <= i < |lines| :: Writable(json, batches[k][i]) && lines[i] == batches[k][i].text;
  }

  lemma {:induction false} BuiltSealed(sha: Hash, json: Json, files: Files, batches: seq<seq<Line>>, k: nat)
    requires NoneEmpty(batches) && AllWritable(json, batches) && Holds(files, batches) && k < |batches|
    ensures Sealed(sha, json, files, Entries(sha, batches), k)
  {
    hide Scan, Holds, Head, Entries, Joined, BadLines, LsnText;
    EntriesAt(sha, batches, k);
    WritableIsPlain(json, batches);
    ReadsBack(files, batches, k);
    var lines := Texts(batches[k]);
    assert forall i | 0 <= i < |lines| :: Writable(json, batches[k][i]) && lines[i] == batches[k][i].text;
    HeadIsPrev(Entries(sha, batches), k);
  }

  predicate SomeUnparsable(json: Json, b: seq<Line>) {
    exists i :: 0 <= i < |b| && json(b[i].text) == None
  }

  /** A written segment is given one verdict, order apart: CORRUPT, if a line of it does not parse. */
  lemma BuiltReport(sha: Hash, json: Json, files: Files, batches: seq<seq<Line>>, k: nat, v: Verdict)
    requires NoneEmpty(batches) && AllPlain(batches) && Holds(files, batches) && k < |batches| && v != OutOfOrder
    ensures Reports(sha, json, files, Entries(sha, batches), k, v) <==>
            v == Corrupt && SomeUnparsable(json, batches[k])
  {
    hide Scan, Holds, Head, Entries, Joined, LsnText;
    EntriesAt(sha, batches, k);
    ReadsBack(files, batches, k);
    HeadIsPrev(Entries(sha, batches), k);
    var lines := Texts(batches[k]);
    assert forall i | 0 <= i < |lines| :: lines[i] == batches[k][i].text;
  }

  /** So of an archive as written, order apart, exactly the segments with an unparsable line are reported, as CORRUPT. */
  lemma CorruptIff(sha: Hash, json: Json, files: Files, batches: seq<seq<Line>>, f: Finding)
    requires NoneEmpty(batches) && AllPlain(batches) && Holds(files, batches) && f.verdict != OutOfOrder
    ensures var es := Entries(sha, batches);
      f in Findings(sha, json, files, es, |es|) <==>
        f.verdict == Corrupt && 1 <= f.num <= |batches| && SomeUnparsable(json, batches[f.num - 1])
  {
    hide Holds, Entries, Reports, Findings, NoneEmpty, AllPlain, SomeUnparsable;
    var es := Entries(sha, batches);
    FindingIff(sha, json, files, es, |es|, f);
    forall k | 0 <= k < |es|
      ensures es[k].num == k + 1
      ensures Reports(sha, json, files, es, k, f.verdict) <==>
              f.verdict == Corrupt && SomeUnparsable(json, batches[k])
    {
      EntriesAt(sha, batches, k);
      BuiltReport(sha, json, files, batches, k, f.verdict);
    }
    if 1 <= f.num <= |es| { assert es[f.num - 1].num == f.num; }
  }

  lemma {:induction false} BuiltGaps(sha: Hash, json: Json, files: Files, batches: seq<seq<Line>>, k: nat)
    requires NoneEmpty(batches) && AllWritable(json, batches) && Holds(files, batches) && k < |batches|
    ensures GapRecorded(json, files, Entries(sha, batches), k + 1) <==>
      HasGap(batches[k]) || (k > 0 && HasGap(batches[k - 1]))
  {
    hide Scan, Holds, Head, Entries, EntryFor, Joined, AnyGap, HasGap, AllWritable, NoneEmpty;
    var es := Entries(sha, batches);
    forall i | 0 <= i < |es|
      ensures es[i].num == i + 1 == es[i].file
      ensures i + 1 in files && (AnyGap(json, Scan(files[i + 1])) <==> HasGap(batches[i]))
    {
      EntriesAt(sha, batches, i);
      FileIsNum(sha, es[..i], batches, i);
      GapsRead(json, files, batches, i);
    }
  }

  lemma FileIsNum(sha: Hash, es: seq<Entry>, batches: seq<seq<Line>>, i: nat)
    requires i < |batches| && NoneEmpty(batches)
    ensures batches[i] != [] && EntryFor(sha, es, batches[i]).file == EntryFor(sha, es, batches[i]).num
  {
  }

  lemma {:induction false} BuiltStartsEarly(sha: Hash, json: Json, files: Files, batches: seq<seq<Line>>, k: nat)
    requires NoneEmpty(batches) && AllWritable(json, batches) && Holds(files, batches) && k < |batches|
    ensures var es := Entries(sha, batches);
      StartsEarly(json, files, es, k) <==> k > 0 && !InOrderAt(batches, k)
  {
    hide Scan, Holds, Head, Entries, Joined, GapRecorded, HasGap, AllWritable, LsnText, Before;
    EntriesAt(sha, batches, k);
    BuiltGaps(sha, json, files, batches, k);
    if k > 0 {
      EntriesAt(sha, batches, k - 1);
      WritableIsPlain(json, batches);
      ReadsBack(files, batches, k - 1);
    }
  }

  /** An archive as written has no fatal finding exactly if it reads in order. */
  lemma {:induction false} BuiltIsCleanIff(sha: Hash, json: Json, files: Files, batches: seq<seq<Line>>)
    requires NoneEmpty(batches) && AllWritable(json, batches) && Holds(files, batches)
    ensures Clean(sha, json, files, Entries(sha, batches)) <==> ReadsInOrder(batches)
  {
    hide Holds, Entries, InOrderAt, AllWritable, StartsEarly, Sealed, Findings;
    var es := Entries(sha, batches);
    CleanSegments(sha, json, files, es, |es|);
    forall k | 0 <= k < |es|
      ensures Sealed(sha, json, files, es, k)
      ensures StartsEarly(json, files, es, k) <==> k > 0 && !InOrderAt(batches, k)
    {
      BuiltSealed(sha, json, files, batches, k);
      BuiltStartsEarly(sha, json, files, batches, k);
    }
  }

  /** So LSNs that increase, without a change of width between segments, verify. */
  lemma {:induction false} InOrderIsClean(sha: Hash, json: Json, files: Files, batches: seq<seq<Line>>)
    requires NoneEmpty(batches) && AllWritable(json, batches) && Holds(files, batches)
    requires forall k | 1 <= k < |batches| ::
      Last(batches[k - 1]) <= First(batches[k]) && SameWidth(First(batches[k]), Last(batches[k - 1]))
    ensures Clean(sha, json, files, Entries(sha, batches))
  {
    hide Holds, Entries, HasGap, AllWritable, LsnText, Before, Clean, SameWidth;
    forall k | 1 <= k < |batches|
      ensures InOrderAt(batches, k)
    {
      TextOrder(First(batches[k]), Last(batches[k - 1]));
    }
    BuiltIsCleanIff(sha, json, files, batches);
  }

  /** And LSNs that increase can be found out of order: a segment that crosses 0/10000000. */
  lemma {:induction false} InOrderIsFlagged(sha: Hash, json: Json, text: string, files: Files)
    requires Plain(text) && json(text) == Some(false)
    requires Holds(files, [[Line(text, 0x9FF_FFFF, false)], [Line(text, 0x1000_0000, false)]])
    ensures !Clean(sha, json, files, Entries(sha, [[Line(text, 0x9FF_FFFF, false)], [Line(text, 0x1000_0000, false)]]))
  {
    hide Holds, Entries, LsnText, Before, Clean, Plain;
    var batches := [[Line(text, 0x9FF_FFFF, false)], [Line(text, 0x1000_0000, false)]];
    LaterSortsFirst();
    assert First(batches[1]) == 0x1000_0000 && Last(batches[0]) == 0x9FF_FFFF;
    BuiltIsCleanIff(sha, json, files, batches);
    assert !HasGap(batches[0]) && !HasGap(batches[1]) && !InOrderAt(batches, 1);
  }
}
