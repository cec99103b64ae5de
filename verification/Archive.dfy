/** Segment files, the chained manifest, and what `verify` makes of them. */
module Archives {
  import opened Options
  import opened Text
  import opened Sha
  import opened Lsn

  // ---- Files of lines ---------------------------------------------------------

  predicate NoNewline(s: string) {
    forall i | 0 <= i < |s| :: s[i] != '\n'
  }

  function Joined(lines: seq<string>): string {
    if lines == [] then "" else Joined(lines[..|lines| - 1]) + lines[|lines| - 1] + "\n"
  }

  /** Up to the first newline. */
  function LineEnd(s: string): (n: nat)
    ensures n <= |s| && NoNewline(s[..n]) && (n < |s| ==> s[n] == '\n')
  {
    if s == "" || s[0] == '\n' then 0
    else
      var n := LineEnd(s[1..]);
      assert s[..n + 1] == [s[0]] + s[1..][..n];
      n + 1
  }

  function DropCr(s: string): string {
    if s != "" && s[|s| - 1] == '\r' then s[..|s| - 1] else s
  }

  /** The lines a scanner delivers: a last one needs no newline, and a '\r' before one is dropped. */
  function Scan(s: string): seq<string>
    decreases |s|
  {
    if s == "" then []
    else
      var n := LineEnd(s);
      [DropCr(s[..n])] + if n < |s| then Scan(s[n + 1..]) else []
  }

  predicate Plain(line: string) {
    NoNewline(line) && DropCr(line) == line
  }

  function JoinedFront(lines: seq<string>): string {
    if lines == [] then "" else lines[0] + "\n" + JoinedFront(lines[1..])
  }

  lemma {:induction false} SameJoin(lines: seq<string>)
    ensures Joined(lines) == JoinedFront(lines)
  {
    if |lines| > 1 {
      var n := |lines| - 1;
      SameJoin(lines[..n]);
      SameJoin(lines[1..]);
      SameJoin(lines[1..][..n - 1]);
      assert lines[..n][1..] == lines[1..][..n - 1];
      assert lines[1..][n - 1] == lines[n];
    } else if |lines| == 1 {
      assert lines[..0] == [] && lines[1..] == [];
    }
  }

  lemma {:induction false} LineEndOf(line: string, rest: string)
    requires NoNewline(line)
    ensures LineEnd(line + "\n" + rest) == |line|
  {
    if line == "" {
      assert line + "\n" + rest == "\n" + rest;
    } else {
      assert (line + "\n" + rest)[1..] == line[1..] + "\n" + rest;
      LineEndOf(line[1..], rest);
    }
  }

  /** Reading back what was written line by line. */
  lemma {:induction false} ScanJoined(lines: seq<string>)
    requires forall i | 0 <= i < |lines| :: Plain(lines[i])
    ensures Scan(JoinedFront(lines)) == lines
  {
    if lines != [] {
      var rest := JoinedFront(lines[1..]);
      var s := lines[0] + "\n" + rest;
      LineEndOf(lines[0], rest);
      assert s[..|lines[0]|] == lines[0] && s[|lines[0]| + 1..] == rest;
      ScanJoined(lines[1..]);
    }
  }

  /** The same lines, each ended by a carriage return and a newline. */
  function CrLfFront(lines: seq<string>): string {
    if lines == [] then "" else (lines[0] + "\r") + "\n" + CrLfFront(lines[1..])
  }

  /** A reader gets the same lines back from that, and from a file whose last newline is missing. */
  lemma {:induction false} ScanCrLf(lines: seq<string>)
    requires forall i | 0 <= i < |lines| :: Plain(lines[i])
    ensures Scan(CrLfFront(lines)) == lines
  {
    if lines != [] {
      var line, rest := lines[0] + "\r", CrLfFront(lines[1..]);
      var s := line + "\n" + rest;
      LineEndOf(line, rest);
      assert s[..|line|] == line && s[|line| + 1..] == rest && line[..|line| - 1] == lines[0];
      ScanCrLf(lines[1..]);
    }
  }

  lemma {:induction false} LineEndAlone(line: string)
    requires NoNewline(line)
    ensures LineEnd(line) == |line|
  {
    if line != "" { LineEndAlone(line[1..]); }
  }

  lemma ScanFirst(line: string, rest: string)
    requires Plain(line)
    ensures Scan(line + "\n" + rest) == [line] + Scan(rest)
  {
    LineEndOf(line, rest);
    var s := line + "\n" + rest;
    assert s[..|line|] == line && s[|line| + 1..] == rest;
  }

  lemma ScanAlone(line: string)
    requires Plain(line) && line != ""
    ensures Scan(line) == [line]
  {
    LineEndAlone(line);
    assert line[..|line|] == line;
  }

  lemma CutLastNewline(line: string, rest: string)
    ensures var s := line + "\n" + rest;
      s[..|s| - 1] == if rest == "" then line else line + "\n" + rest[..|rest| - 1]
  {
  }

  lemma {:induction false} ScanUnended(lines: seq<string>)
    requires (forall i | 0 <= i < |lines| :: Plain(lines[i])) && lines != [] && lines[|lines| - 1] != ""
    ensures var s := JoinedFront(lines); s != "" && Scan(s[..|s| - 1]) == lines
  {
    hide Scan, Plain;
    var line, rest := lines[0], JoinedFront(lines[1..]);
    CutLastNewline(line, rest);
    if |lines| == 1 {
      ScanAlone(line);
    } else {
      ScanUnended(lines[1..]);
      ScanFirst(line, rest[..|rest| - 1]);
    }
  }

  lemma {:induction false} ScanHasNoNewlines(s: string)
    ensures forall i | 0 <= i < |Scan(s)| :: NoNewline(Scan(s)[i])
    decreases |s|
  {
    if s != "" {
      var n := LineEnd(s);
      if n < |s| { ScanHasNoNewlines(s[n + 1..]); }
    }
  }

  /** Lines without newlines can be told from what they join to. */
  lemma {:induction false} JoinedInjective(a: seq<string>, b: seq<string>)
    requires (forall i | 0 <= i < |a| :: NoNewline(a[i])) && (forall i | 0 <= i < |b| :: NoNewline(b[i]))
    requires JoinedFront(a) == JoinedFront(b)
    ensures a == b
  {
    if a != [] && b != [] {
      LineEndOf(a[0], JoinedFront(a[1..]));
      LineEndOf(b[0], JoinedFront(b[1..]));
      assert a[0] + "\n" + JoinedFront(a[1..]) == a[0] + ("\n" + JoinedFront(a[1..]));
      assert b[0] + "\n" + JoinedFront(b[1..]) == b[0] + ("\n" + JoinedFront(b[1..]));
      CutFront(a[0], "\n" + JoinedFront(a[1..]), b[0], "\n" + JoinedFront(b[1..]));
      CutFront("\n", JoinedFront(a[1..]), "\n", JoinedFront(b[1..]));
      JoinedInjective(a[1..], b[1..]);
    }
  }

  // ---- Writing -------------------------------------------------------------------

  /** What a line parses as: nothing, or a record that is or is not a gap. */
  type Json = string -> Option<bool>

  datatype Line = Line(text: string, lsn: nat, gap: bool)

  predicate Writable(json: Json, l: Line) {
    Plain(l.text) && json(l.text) == Some(l.gap)
  }

  /** A manifest entry; files go by the number in their name. */
  datatype Entry = Entry(num: nat, file: nat, start: string, end: string, changes: nat,
                         sum: string, prev: string, chain: string)

  function Texts(lines: seq<Line>): seq<string> {
    seq(|lines|, i requires 0 <= i < |lines| => lines[i].text)
  }

  lemma TextsSnoc(lines: seq<Line>, l: Line)
    ensures Joined(Texts(lines + [l])) == Joined(Texts(lines)) + (l.text + "\n")
  {
    assert Texts(lines + [l])[..|lines|] == Texts(lines);
  }

  function Head(entries: seq<Entry>): string {
    if entries == [] then "" else entries[|entries| - 1].chain
  }

  function EntryFor(sha: Hash, es: seq<Entry>, b: seq<Line>): Entry
    requires b != []
  {
    var sum := sha(Joined(Texts(b)));
    Entry(|es| + 1, |es| + 1, LsnText(b[0].lsn), LsnText(b[|b| - 1].lsn), |b|, sum,
          Head(es), sha(Head(es) + "|" + sum))
  }

  predicate NoneEmpty(batches: seq<seq<Line>>) {
    forall i | 0 <= i < |batches| :: batches[i] != []
  }

  /** The manifest of an archive that sealed these batches one after the other. */
  function Entries(sha: Hash, batches: seq<seq<Line>>): (es: seq<Entry>)
    requires NoneEmpty(batches)
    ensures |es| == |batches|
  {
    if batches == [] then []
    else
      var es := Entries(sha, batches[..|batches| - 1]);
      es + [EntryFor(sha, es, batches[|batches| - 1])]
  }

  lemma EntriesSnoc(sha: Hash, batches: seq<seq<Line>>, b: seq<Line>)
    requires NoneEmpty(batches) && b != []
    ensures Entries(sha, batches + [b]) == Entries(sha, batches) + [EntryFor(sha, Entries(sha, batches), b)]
  {
    assert (batches + [b])[..|batches|] == batches;
  }

  predicate Holds(files: map<nat, string>, batches: seq<seq<Line>>) {
    forall i | 1 <= i <= |batches| :: i in files && files[i] == Joined(Texts(batches[i - 1]))
  }

  lemma HoldsMore(files: map<nat, string>, batches: seq<seq<Line>>, b: seq<Line>)
    requires Holds(files, batches) && |batches| + 1 in files && files[|batches| + 1] == Joined(Texts(b))
    ensures Holds(files, batches + [b])
  {
  }

  lemma NoneEmptySnoc(batches: seq<seq<Line>>, b: seq<Line>)
    requires NoneEmpty(batches) && b != []
    ensures NoneEmpty(batches + [b])
  {
  }

  /** The writer: `Append` and `Rotate` on a directory. */
  class Archive {
    const sha: Hash
    const maxBytes: nat
    var entries: seq<Entry>
    var files: map<nat, string>
    var open: bool
    var hashed: string
    var curStart: string
    var curEnd: string
    var curCount: nat

    ghost var sealed: seq<seq<Line>>
    ghost var lines: seq<Line>

    /** The manifest and the closed files are those of the sealed batches. */
    ghost predicate SealedValid()
      reads this
    {
      NoneEmpty(sealed) && entries == Entries(sha, sealed) && Holds(files, sealed)
    }

    /** The counters, the hash input and the open file are those of the lines since. */
    ghost predicate OpenValid()
      reads this
    {
      curCount == |lines| && (!open ==> lines == []) &&
      (open ==>
        hashed == Joined(Texts(lines)) && |entries| + 1 in files && files[|entries| + 1] == hashed &&
        curStart == (if lines == [] then "" else LsnText(lines[0].lsn)) &&
        curEnd == if lines == [] then "" else LsnText(lines[|lines| - 1].lsn))
    }

    ghost predicate Valid()
      reads this
    {
      SealedValid() && OpenValid()
    }

    /** Opening reads the manifest, if there is one; whatever else is in the directory stays. */
    constructor (sha: Hash, maxBytes: nat, manifest: seq<Entry>, dir: map<nat, string>, ghost batches: seq<seq<Line>>)
      requires NoneEmpty(batches) && manifest == Entries(sha, batches) && Holds(dir, batches)
      ensures Valid() && sealed == batches && lines == [] && this.sha == sha && this.maxBytes == maxBytes
    {
      this.sha, this.maxBytes := sha, maxBytes;
      entries, files, open, hashed := manifest, dir, false, "";
      curStart, curEnd, curCount, sealed, lines := "", "", 0, batches, [];
    }

    /** Whatever a killed run left in the file is truncated. */
    method Open()
      requires Valid() && !open
      modifies this
      ensures Valid() && open && sealed == old(sealed) && lines == []
    {
      hide Entries, LsnText;
      files := files[|entries| + 1 := ""];
      open, hashed, curStart, curEnd, curCount := true, "", "", "", 0;
    }

    method Append(l: Line)
      requires Valid()
      modifies this
      ensures Valid()
      ensures var bytes := |Joined(Texts(old(lines) + [l]))|;
        if bytes >= maxBytes
        then sealed == old(sealed) + [old(lines) + [l]] && lines == []
        else sealed == old(sealed) && lines == old(lines) + [l]
    {
      hide Entries, LsnText, Texts, Joined;
      if !open {
        Open();
      }
      ghost var all := lines + [l];
      TextsSnoc(lines, l);
      var b := l.text + "\n";
      hashed := hashed + b;
      files := files[|entries| + 1 := hashed];
      curCount := curCount + 1;
      if curStart == "" {
        curStart := LsnText(l.lsn);
      }
      curEnd := LsnText(l.lsn);
      lines := all;
      if |hashed| >= maxBytes {
        Rotate();
      }
    }

    /** The manifest entry of the open segment. */
    method CloseEntry() returns (e: Entry)
      requires Valid() && lines != []
      ensures e == EntryFor(sha, entries, lines)
    {
      hide Entries, LsnText, Texts, Joined, Holds, NoneEmpty;
      var sum := sha(hashed);
      var prev := Head(entries);
      e := Entry(|entries| + 1, |entries| + 1, curStart, curEnd, curCount, sum, prev, sha(prev + "|" + sum));
    }

    method Rotate()
      requires Valid()
      modifies this
      ensures Valid() && lines == []
      ensures sealed == if old(lines) == [] then old(sealed) else old(sealed) + [old(lines)]
    {
      if !open || curCount == 0 {
        return;
      }
      Record();
      open, curCount, lines := false, 0, [];
    }

    /** The segment is in the manifest only once it is closed. */
    method Record()
      requires Valid() && lines != []
      modifies this`entries, this`sealed
      ensures SealedValid() && sealed == old(sealed) + [lines]
    {
      hide Entries, LsnText, Texts, Joined, Holds, NoneEmpty, EntryFor, Head;
      var e := CloseEntry();
      EntriesSnoc(sha, sealed, lines);
      NoneEmptySnoc(sealed, lines);
      HoldsMore(files, sealed, lines);
      entries := entries + [e];
      sealed := sealed + [lines];
    }
  }
}
