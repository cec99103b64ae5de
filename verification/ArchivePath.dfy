/** From the replication stream through the archive and back: the images that arrive. */
module ArchivePath {
  import opened Options
  import opened Json
  import opened Tables
  import opened Capture
  import opened Plan
  import opened Inverse
  import opened Conflicts
  import opened Replay
  import opened AsOf
  import opened AsOfRows
  import opened Preview

  /** A column of a pgoutput tuple: null, an unchanged TOAST value left out, or text. */
  datatype Cell = NullCell | Unchanged | TextCell(text: string)

  type TextRow = map<string, Option<string>>

  /** How a column's values are written as text and read back through its type. */
  datatype Types = Types(show: (string, Json) -> Option<string>, read: (string, Option<string>) -> Json)

  /** Text input undoes text output, and null stays null. */
  ghost predicate RoundTrips(ty: Types) {
    (forall c, v :: ty.read(c, ty.show(c, v)) == v) && forall c :: ty.read(c, None) == Null
  }

  // ---- tupleToMap ---------------------------------------------------------------

  /** The effect of one tuple column. */
  function Put(out: TextRow, name: string, col: Cell, fallback: Option<TextRow>): TextRow {
    match col
    case NullCell => out[name := None]
    case Unchanged =>
      if fallback.Some? && name in fallback.value then out[name := fallback.value[name]] else out
    case TextCell(text) => out[name := Some(text)]
  }

  function Mapped(cols: seq<string>, t: seq<Cell>, fallback: Option<TextRow>): TextRow
    requires |t| <= |cols|
  {
    if t == [] then map[]
    else Put(Mapped(cols, t[..|t| - 1], fallback), cols[|t| - 1], t[|t| - 1], fallback)
  }

  method TupleToMap(cols: seq<string>, t: Option<seq<Cell>>, fallback: Option<TextRow>) returns (out: TextRow)
    ensures t.None? ==> out == map[]
    ensures t.Some? ==>
      out == Mapped(cols, if |t.value| <= |cols| then t.value else t.value[..|cols|], fallback)
  {
    out := map[];
    if t.None? {
      return;
    }
    var tuple := t.value;
    var i := 0;
    while i < |tuple|
      invariant i <= |tuple| && i <= |cols| && out == Mapped(cols, tuple[..i], fallback)
    {
      if i >= |cols| {
        break;
      }
      assert tuple[..i + 1][..i] == tuple[..i];
      out := Put(out, cols[i], tuple[i], fallback);
      i := i + 1;
    }
    assert |tuple| <= |cols| ==> tuple[..i] == tuple;
  }

  // ---- What the server sends --------------------------------------------------------

  predicate Distinct(cols: seq<string>) {
    forall i, j | 0 <= i < j < |cols| :: cols[i] != cols[j]
  }

  function CellOf(ty: Types, c: string, v: Json): Cell {
    var t := ty.show(c, v);
    if t.None? then NullCell else TextCell(t.value)
  }

  /** The old tuple under REPLICA IDENTITY FULL: every published column. */
  function FullTuple(ty: Types, cols: seq<string>, row: Row): seq<Cell> {
    seq(|cols|, i requires 0 <= i < |cols| => CellOf(ty, cols[i], Get(row, cols[i])))
  }

  /** The new tuple: some unchanged columns, stored out of line, are left out. */
  function NewTuple(ty: Types, cols: seq<string>, before: Row, after: Row, toasted: set<string>): seq<Cell> {
    seq(|cols|, i requires 0 <= i < |cols| =>
      if cols[i] in toasted && Get(before, cols[i]) == Get(after, cols[i]) then Unchanged
      else CellOf(ty, cols[i], Get(after, cols[i])))
  }

  /** A row as the archive has it: the text of every published column. */
  function TextOf(ty: Types, cols: seq<string>, row: Row): TextRow {
    map c | c in cols :: ty.show(c, Get(row, c))
  }

  /** A cell that stands for this row's value, by itself or through the fallback. */
  predicate Carries(ty: Types, name: string, cell: Cell, fallback: Option<TextRow>, row: Row) {
    if cell == Unchanged
    then fallback.Some? && name in fallback.value && fallback.value[name] == ty.show(name, Get(row, name))
    else cell == CellOf(ty, name, Get(row, name))
  }

  lemma PutCarried(out: TextRow, ty: Types, name: string, cell: Cell, fallback: Option<TextRow>, row: Row)
    requires Carries(ty, name, cell, fallback, row)
    ensures Put(out, name, cell, fallback) == out[name := ty.show(name, Get(row, name))]
  {
  }

  lemma TextSnoc(ty: Types, cols: seq<string>, n: nat, row: Row)
    requires n < |cols|
    ensures TextOf(ty, cols[..n + 1], row) == TextOf(ty, cols[..n], row)[cols[n] := ty.show(cols[n], Get(row, cols[n]))]
  {
    assert cols[..n + 1] == cols[..n] + [cols[n]];
  }

  lemma {:induction false} MappedFront(ty: Types, cols: seq<string>, t: seq<Cell>, fallback: Option<TextRow>, row: Row)
    requires |t| <= |cols|
    requires forall i | 0 <= i < |t| :: Carries(ty, cols[i], t[i], fallback, row)
    ensures Mapped(cols, t, fallback) == TextOf(ty, cols[..|t|], row)
    decreases |t|
  {
    if t != [] {
      var n := |t| - 1;
      hide TextOf, Put, Carries;
      MappedFront(ty, cols, t[..n], fallback, row);
      TextSnoc(ty, cols, n, row);
      PutCarried(Mapped(cols, t[..n], fallback), ty, cols[n], t[n], fallback, row);
    }
  }

  /** With full old tuples, both images are the true rows, unchanged TOAST values included. */
  lemma {:induction false} UpdateImagesAreTrue(ty: Types, cols: seq<string>, before: Row, after: Row, toasted: set<string>)
    ensures var was := Mapped(cols, FullTuple(ty, cols, before), None);
      was == TextOf(ty, cols, before) &&
      Mapped(cols, NewTuple(ty, cols, before, after, toasted), Some(was)) == TextOf(ty, cols, after)
  {
    assert cols[..|cols|] == cols;
    MappedFront(ty, cols, FullTuple(ty, cols, before), None, before);
    MappedFront(ty, cols, NewTuple(ty, cols, before, after, toasted), Some(TextOf(ty, cols, before)), after);
  }

  predicate Omitted(before: Row, after: Row, toasted: set<string>, c: string) {
    c in toasted && Get(before, c) == Get(after, c)
  }

  /** The text of the columns the new tuple carries by itself. */
  function Sent(ty: Types, cols: seq<string>, before: Row, after: Row, toasted: set<string>): TextRow {
    map c | c in cols && !Omitted(before, after, toasted, c) :: ty.show(c, Get(after, c))
  }

  lemma SentSnoc(ty: Types, cols: seq<string>, c: string, before: Row, after: Row, toasted: set<string>)
    ensures Sent(ty, cols + [c], before, after, toasted) ==
            if Omitted(before, after, toasted, c) then Sent(ty, cols, before, after, toasted)
            else Sent(ty, cols, before, after, toasted)[c := ty.show(c, Get(after, c))]
  {
    hide Omitted, Get;
  }

  lemma PutSent(ty: Types, cols: seq<string>, before: Row, after: Row, toasted: set<string>, n: nat, out: TextRow)
    requires n < |cols|
    ensures Put(out, cols[n], NewTuple(ty, cols, before, after, toasted)[n], None) ==
            if Omitted(before, after, toasted, cols[n]) then out else out[cols[n] := ty.show(cols[n], Get(after, cols[n]))]
  {
  }

  lemma {:induction false} MappedSent(ty: Types, cols: seq<string>, before: Row, after: Row, toasted: set<string>, n: nat)
    requires n <= |cols|
    ensures Mapped(cols, NewTuple(ty, cols, before, after, toasted)[..n], None) == Sent(ty, cols[..n], before, after, toasted)
  {
    if n > 0 {
      hide Put, Sent, Omitted, Get;
      var t := NewTuple(ty, cols, before, after, toasted);
      assert t[..n][..n - 1] == t[..n - 1] && t[..n][n - 1] == t[n - 1];
      assert cols[..n] == cols[..n - 1] + [cols[n - 1]];
      MappedSent(ty, cols, before, after, toasted, n - 1);
      SentSnoc(ty, cols[..n - 1], cols[n - 1], before, after, toasted);
      PutSent(ty, cols, before, after, toasted, n - 1, Mapped(cols, t[..n - 1], None));
    } else {
      assert Mapped(cols, NewTuple(ty, cols, before, after, toasted)[..0], None) == map[];
    }
  }

  /** Without an old tuple, the unchanged TOAST values are missing from the archived row, and nothing else is. */
  lemma ToastIsLostWithoutOldTuple(ty: Types, cols: seq<string>, before: Row, after: Row, toasted: set<string>)
    ensures Mapped(cols, NewTuple(ty, cols, before, after, toasted), None)
         == map c | c in cols && !(c in toasted && Get(before, c) == Get(after, c)) :: ty.show(c, Get(after, c))
  {
    MappedSent(ty, cols, before, after, toasted, |cols|);
    assert cols[..|cols|] == cols;
    var t := NewTuple(ty, cols, before, after, toasted);
    assert t[..|cols|] == t;
  }

  // ---- Archived and restored --------------------------------------------------------

  /** What `emit` archives: row images as text. */
  datatype Archived = Archived(table: string, op: Op, was: Option<TextRow>, now: Option<TextRow>)

  /** The published columns of a table: all but the generated ones, in some order. */
  ghost predicate Publishes(s: Schema, cols: seq<string>) {
    Distinct(cols) && forall c :: c in cols <==> c in s.base
  }

  function ArchivedFrom(ty: Types, cols: seq<string>, db: Db, w: Write, toasted: set<string>): Archived
    requires w.Ins? || w.id in db
  {
    match w
    case Ins(table, row) => Archived(table, I, None, Some(Mapped(cols, FullTuple(ty, cols, row), None)))
    case Del(id) => Archived(id.table, D, Some(Mapped(cols, FullTuple(ty, cols, db[id]), None)), None)
    case Upd(id, row) =>
      var was := Mapped(cols, FullTuple(ty, cols, db[id]), None);
      Archived(id.table, U, Some(was), Some(Mapped(cols, NewTuple(ty, cols, db[id], row, toasted), Some(was))))
  }

  /** `to_jsonb(jsonb_populate_record(...))`: every column of the table, absent ones null. */
  function Populated(s: Schema, ty: Types, img: TextRow): Row {
    map c | c in s.Columns() :: if c in img then ty.read(c, img[c]) else Null
  }

  /** The history row that loading an archived change makes. */
  function Restored(s: Schema, ty: Types, a: Archived, id: nat): Change {
    var img := if a.now.Some? then a.now else a.was;
    Change(id, a.table, a.op, if img.Some? then s.Key(Populated(s, ty, img.value)) else map[],
           if a.was.Some? then Some(Populated(s, ty, a.was.value)) else None,
           if a.now.Some? then Some(Populated(s, ty, a.now.value)) else None)
  }

  /** A published row comes back with its stored columns, and its generated ones null. */
  lemma {:induction false} PopulatedAgrees(s: Schema, ty: Types, cols: seq<string>, row: Row)
    requires RoundTrips(ty) && Publishes(s, cols) && s.Valid()
    ensures var img := Populated(s, ty, TextOf(ty, cols, row));
      img.Keys == s.Columns() && Agrees(s, img, row) && s.Key(img) == s.Key(row) &&
      forall c | c in s.derived :: img[c] == Null
  {
    var img := Populated(s, ty, TextOf(ty, cols, row));
    assert forall c | c in s.base :: img[c] == Get(row, c);
  }

  lemma {:induction false} RestoredUpdateIsFaithful(cat: Catalog, ty: Types, cols: seq<string>, db: Db, w: Write,
                                                    toasted: set<string>, id: nat)
    requires w.Upd? && Legal(cat, db, w) && RoundTrips(ty) && Publishes(cat[w.id.table], cols)
    requires cat[w.id.table].Valid() && cat[w.id.table].Settable() != {}
    ensures Faithful(cat, db, w, Restored(cat[w.id.table], ty, ArchivedFrom(ty, cols, db, w, toasted), id))
  {
    hide Mapped, FullTuple, NewTuple, Populated, TextOf, RoundTrips, Publishes;
    var s := cat[w.id.table];
    UpdateImagesAreTrue(ty, cols, db[w.id], w.row, toasted);
    PopulatedAgrees(s, ty, cols, db[w.id]);
    PopulatedAgrees(s, ty, cols, w.row);
    assert s.Columns() * s.Settable() == s.Settable();
  }

  /** What the archive gives back is as good for undo and replay as what the trigger wrote. */
  lemma {:induction false} RestoredIsFaithful(cat: Catalog, ty: Types, cols: seq<string>, db: Db, w: Write,
                                              toasted: set<string>, id: nat)
    requires ValidDb(cat, db) && Legal(cat, db, w) && RoundTrips(ty) && Publishes(cat[w.Table()], cols)
    requires w.Upd? ==> cat[w.Table()].Settable() != {}
    ensures Faithful(cat, db, w, Restored(cat[w.Table()], ty, ArchivedFrom(ty, cols, db, w, toasted), id))
  {
    hide Mapped, FullTuple, NewTuple, Populated, TextOf, RoundTrips, Publishes;
    var s := cat[w.Table()];
    match w
    case Ins(_, row) =>
      UpdateImagesAreTrue(ty, cols, row, row, {});
      PopulatedAgrees(s, ty, cols, row);
    case Del(rid) =>
      UpdateImagesAreTrue(ty, cols, db[rid], db[rid], {});
      PopulatedAgrees(s, ty, cols, db[rid]);
    case Upd(_, _) =>
      RestoredUpdateIsFaithful(cat, ty, cols, db, w, toasted, id);
  }

  /** Every table is published, and can be updated at all. */
  ghost predicate Archivable(cat: Catalog, cols: string -> seq<string>) {
    forall t | t in cat :: Publishes(cat[t], cols(t)) && cat[t].Settable() != {}
  }

  /** The same run as the archive remembers it; an update that changed nothing is in it too. */
  ghost function Twin(cat: Catalog, ty: Types, cols: string -> seq<string>, db: Db, es: seq<Entry>,
                      toasted: set<string>): seq<Entry>
    requires History(cat, db, es)
    decreases |es|
  {
    if es == [] then []
    else
      var n := |es| - 1;
      var w := es[n].write;
      var a := ArchivedFrom(ty, cols(w.Table()), End(cat, db, es[..n]), w, toasted);
      Twin(cat, ty, cols, db, es[..n], toasted) + [Entry(w, Some(Restored(cat[w.Table()], ty, a, n)))]
  }

  lemma {:induction false} TwinIsHistory(cat: Catalog, ty: Types, cols: string -> seq<string>, db: Db, es: seq<Entry>,
                                         toasted: set<string>)
    requires ValidDb(cat, db) && History(cat, db, es) && RoundTrips(ty) && Archivable(cat, cols)
    ensures var twin := Twin(cat, ty, cols, db, es, toasted);
      History(cat, db, twin) && End(cat, db, twin) == End(cat, db, es)
    decreases |es|
  {
    if es != [] {
      hide ArchivedFrom, Restored, RoundTrips, Faithful, Legal, ValidDb, Written;
      var n := |es| - 1;
      var w, mid := es[n].write, End(cat, db, es[..n]);
      TwinIsHistory(cat, ty, cols, db, es[..n], toasted);
      EndIsValid(cat, db, es[..n]);
      var t := w.Table();
      assert Publishes(cat[t], cols(t));
      RestoredIsFaithful(cat, ty, cols(t), mid, w, toasted, n);
      var e := Entry(w, Some(Restored(cat[t], ty, ArchivedFrom(ty, cols(t), mid, w, toasted), n)));
      HistorySnoc(cat, db, Twin(cat, ty, cols, db, es[..n], toasted), e);
    }
  }

  /** Undoing the restored history of a run gives the tables that undoing the captured one gives. */
  lemma {:induction false} ArchivePathAgrees(cat: Catalog, ty: Types, cols: string -> seq<string>, start: Db,
                                             es: seq<Entry>, toasted: set<string>, skip: bool)
    requires ValidDb(cat, start) && History(cat, start, es) && RoundTrips(ty) && Archivable(cat, cols)
    ensures var live, archived := End(cat, start, es), Log(Twin(cat, ty, cols, start, es, toasted));
      var a, b := Undo(cat, live, archived, skip), Undo(cat, live, Log(es), skip);
      Clean(a) && Clean(b) && a.db == b.db == start
  {
    hide Undo, Clean, ValidDb, RoundTrips, Archivable, History, Twin;
    TwinIsHistory(cat, ty, cols, start, es, toasted);
    UndoInvertsHistory(cat, start, es, skip);
    UndoInvertsHistory(cat, start, Twin(cat, ty, cols, start, es, toasted), skip);
  }

  // ---- RestoreArchive -----------------------------------------------------------------

  /** A line as the loader meets it. */
  datatype Line = Unparsable | GapLine | TruncateLine | RowLine(change: Archived)

  /** The history that loading these lines makes, ids counting up from `next`. */
  function Loadable(cat: Catalog, ty: Types, lines: seq<Line>, next: nat): seq<Change> {
    if lines == [] then []
    else
      var n := |lines| - 1;
      var earlier := Loadable(cat, ty, lines[..n], next);
      if lines[n].RowLine? && lines[n].change.table in cat
      then earlier + [Restored(cat[lines[n].change.table], ty, lines[n].change, next + |earlier|)]
      else earlier
  }

  /** The first line about a table that is not there stops the load. */
  predicate Blocks(cat: Catalog, line: Line) {
    line.RowLine? && line.change.table !in cat
  }

  predicate FirstBlock(cat: Catalog, lines: seq<Line>, n: nat) {
    n < |lines| && Blocks(cat, lines[n]) && forall m | 0 <= m < n :: !Blocks(cat, lines[m])
  }

  method LoadSegment(cat: Catalog, ty: Types, seg: seq<Line>, before: seq<Change>, next: nat, ghost done: seq<Line>)
    returns (log: seq<Change>, skipped: nat, failed: bool)
    requires before == Loadable(cat, ty, done, next)
    ensures !failed ==> log == Loadable(cat, ty, done + seg, next)
    ensures !failed ==> |log| - |before| + skipped == |seg|
    ensures failed <==> Blocked(cat, seg)
    ensures failed ==> exists i: nat :: FirstBlock(cat, seg, i) && log == Loadable(cat, ty, done + seg[..i], next) && |log| - |before| + skipped == i
  {
    log, skipped, failed := before, 0, false;
    assert done + seg[..0] == done;
    for i := 0 to |seg|
      invariant log == Loadable(cat, ty, done + seg[..i], next)
      invariant |log| - |before| + skipped == i
      invariant forall m | 0 <= m < i :: !Blocks(cat, seg[m])
    {
      var c := seg[i];
      LoadableNext(cat, ty, done, seg, i, next);
      hide Loadable;
      if !c.RowLine? {
        skipped := skipped + 1;
      } else if c.change.table !in cat {
        assert FirstBlock(cat, seg, i);
        return log, skipped, true;
      } else {
        log := log + [Restored(cat[c.change.table], ty, c.change, next + |log|)];
      }
    }
    assert seg[..|seg|] == seg;
  }

  lemma LoadableNext(cat: Catalog, ty: Types, done: seq<Line>, seg: seq<Line>, i: nat, next: nat)
    requires i < |seg|
    ensures var log := Loadable(cat, ty, done + seg[..i], next);
      Loadable(cat, ty, done + seg[..i + 1], next) ==
        if seg[i].RowLine? && seg[i].change.table in cat
        then log + [Restored(cat[seg[i].change.table], ty, seg[i].change, next + |log|)]
        else log
  {
    hide Restored;
    assert (done + seg[..i + 1])[..|done| + i] == done + seg[..i];
  }

  method RestoreArchive(cat: Catalog, ty: Types, segments: seq<seq<Line>>, next: nat)
    returns (log: seq<Change>, loaded: nat, skipped: nat, failed: bool)
    ensures !failed ==> log == Loadable(cat, ty, AllLines(segments), next)
    ensures !failed ==> loaded == |log| && loaded + skipped == |AllLines(segments)|
    ensures failed <==> exists k | 0 <= k < |segments| :: Blocked(cat, segments[k])
    ensures failed ==>
      exists n: nat :: FirstBlock(cat, AllLines(segments), n) && log == Loadable(cat, ty, AllLines(segments)[..n], next) &&
                  loaded == |log| && loaded + skipped == n
  {
    hide Loadable, Restored;
    log, loaded, skipped, failed := [], 0, 0, false;
    NothingLoaded(cat, ty, next);
    for k := 0 to |segments|
      invariant log == Loadable(cat, ty, AllLines(segments[..k]), next)
      invariant loaded == |log| && loaded + skipped == |AllLines(segments[..k])|
      invariant forall m | 0 <= m < k :: !Blocked(cat, segments[m])
    {
      assert segments[..k + 1][..k] == segments[..k];
      var more, n, stopped := LoadSegment(cat, ty, segments[k], log, next, AllLines(segments[..k]));
      if stopped {
        var i: nat :| FirstBlock(cat, segments[k], i) && more == Loadable(cat, ty, AllLines(segments[..k]) + segments[k][..i], next) &&
                 |more| - |log| + n == i;
        BlockInAll(cat, segments, k, i);
        return more, |more|, skipped + n, true;
      }
      log, loaded, skipped := more, |more|, skipped + n;
    }
    assert segments[..|segments|] == segments;
  }

  /** The first line that blocks a segment, the ones before not blocked, is the first of all. */
  lemma BlockInAll(cat: Catalog, segments: seq<seq<Line>>, k: nat, i: nat)
    requires k < |segments| && FirstBlock(cat, segments[k], i)
    requires forall m | 0 <= m < k :: !Blocked(cat, segments[m])
    ensures var before := AllLines(segments[..k]);
      && |before| + i < |AllLines(segments)| && AllLines(segments)[..|before| + i] == before + segments[k][..i]
      && FirstBlock(cat, AllLines(segments), |before| + i)
  {
    hide Blocks;
    var before, all := AllLines(segments[..k]), AllLines(segments);
    AllLinesFrom(segments, k);
    NoneBlocks(cat, segments[..k]);
    assert all[..|before| + |segments[k]|] == before + segments[k];
    assert all[..|before| + i] == before + segments[k][..i];
    assert forall m | 0 <= m < |before| :: all[m] == before[m];
    assert forall m | 0 <= m <= i :: all[|before| + m] == segments[k][m];
    forall m | 0 <= m < |before| + i ensures !Blocks(cat, all[m]) {
      assert m >= |before| ==> all[m] == segments[k][m - |before|];
    }
  }

  lemma {:induction false} AllLinesFrom(segments: seq<seq<Line>>, k: nat)
    requires k < |segments|
    ensures AllLines(segments[..k]) + segments[k] <= AllLines(segments)
    decreases |segments|
  {
    var n := |segments| - 1;
    if k < n {
      AllLinesFrom(segments[..n], k);
      assert segments[..n][..k] == segments[..k];
    }
  }

  lemma {:induction false} NoneBlocks(cat: Catalog, segments: seq<seq<Line>>)
    requires forall m | 0 <= m < |segments| :: !Blocked(cat, segments[m])
    ensures forall i | 0 <= i < |AllLines(segments)| :: !Blocks(cat, AllLines(segments)[i])
    decreases |segments|
  {
    hide Blocks;
    if segments != [] {
      var n := |segments| - 1;
      NoneBlocks(cat, segments[..n]);
      assert !Blocked(cat, segments[n]);
    }
  }

  lemma NothingLoaded(cat: Catalog, ty: Types, next: nat)
    ensures Loadable(cat, ty, [], next) == []
  {
  }

  predicate Blocked(cat: Catalog, seg: seq<Line>) {
    exists i | 0 <= i < |seg| :: Blocks(cat, seg[i])
  }

  function AllLines(segments: seq<seq<Line>>): seq<Line> {
    if segments == [] then [] else AllLines(segments[..|segments| - 1]) + segments[|segments| - 1]
  }

  // ---- End to end ------------------------------------------------------------------------

  /** The lines the stream of a run leaves. */
  ghost function RunLines(cat: Catalog, ty: Types, cols: string -> seq<string>, db: Db, es: seq<Entry>,
                          toasted: set<string>): seq<Line>
    requires History(cat, db, es)
    decreases |es|
  {
    if es == [] then []
    else
      var n := |es| - 1;
      var w := es[n].write;
      RunLines(cat, ty, cols, db, es[..n], toasted) +
      [RowLine(ArchivedFrom(ty, cols(w.Table()), End(cat, db, es[..n]), w, toasted))]
  }

  function RowLines(lines: seq<Line>): seq<Line> {
    if lines == [] then []
    else
      var n := |lines| - 1;
      RowLines(lines[..n]) + if lines[n].RowLine? then [lines[n]] else []
  }

  /** Gaps, truncates and unreadable lines make no difference to what is loaded. */
  lemma {:induction false} OnlyRowsLoad(cat: Catalog, ty: Types, lines: seq<Line>, next: nat)
    ensures Loadable(cat, ty, RowLines(lines), next) == Loadable(cat, ty, lines, next)
    decreases |lines|
  {
    hide Restored;
    if lines != [] {
      var n := |lines| - 1;
      OnlyRowsLoad(cat, ty, lines[..n], next);
      var rows := RowLines(lines);
      if lines[n].RowLine? {
        assert rows[..|rows| - 1] == RowLines(lines[..n]);
      } else {
        assert rows == RowLines(lines[..n]);
      }
    }
  }

  lemma ArchivedTable(ty: Types, cols: seq<string>, db: Db, w: Write, toasted: set<string>)
    requires w.Ins? || w.id in db
    ensures ArchivedFrom(ty, cols, db, w, toasted).table == w.Table()
  {
  }

  lemma {:induction false} RunLoads(cat: Catalog, ty: Types, cols: string -> seq<string>, db: Db, es: seq<Entry>,
                                    toasted: set<string>)
    requires History(cat, db, es)
    ensures Loadable(cat, ty, RunLines(cat, ty, cols, db, es, toasted), 0) == Log(Twin(cat, ty, cols, db, es, toasted))
    ensures |Log(Twin(cat, ty, cols, db, es, toasted))| == |es|
    decreases |es|
  {
    hide Restored, ArchivedFrom, Recorded, Written;
    if es != [] {
      var n := |es| - 1;
      RunLoads(cat, ty, cols, db, es[..n], toasted);
      ArchivedTable(ty, cols(es[n].write.Table()), End(cat, db, es[..n]), es[n].write, toasted);
      var lines, twin := RunLines(cat, ty, cols, db, es, toasted), Twin(cat, ty, cols, db, es, toasted);
      assert lines[..|lines| - 1] == RunLines(cat, ty, cols, db, es[..n], toasted);
      assert twin[..|twin| - 1] == Twin(cat, ty, cols, db, es[..n], toasted);
    }
  }

  lemma {:induction false} TwinKeepsKeys(cat: Catalog, ty: Types, cols: string -> seq<string>, db: Db, es: seq<Entry>,
                                         toasted: set<string>)
    requires History(cat, db, es) && KeepsKeys(cat, es)
    ensures KeepsKeys(cat, Twin(cat, ty, cols, db, es, toasted))
    decreases |es|
  {
    hide KeepsKey, Restored, ArchivedFrom;
    if es != [] {
      TwinKeepsKeys(cat, ty, cols, db, es[..|es| - 1], toasted);
    }
  }

  /**
   * A run whose log is lost can be taken back, and if it moved no key made again,
   * from what its archive loads, whatever else stands between its lines.
   */
  lemma {:induction false} ArchiveRecoversRun(cat: Catalog, ty: Types, cols: string -> seq<string>, start: Db,
                                              es: seq<Entry>, toasted: set<string>, lines: seq<Line>, skip: bool)
    requires ValidDb(cat, start) && History(cat, start, es) && RoundTrips(ty) && Archivable(cat, cols)
    requires RowLines(lines) == RunLines(cat, ty, cols, start, es, toasted)
    ensures var log := Loadable(cat, ty, lines, 0);
      (var o := Undo(cat, End(cat, start, es), log, skip); Clean(o) && o.db == start) &&
      (KeepsKeys(cat, es) ==>
        var o := Replayed(cat, start, log, skip); Clean(o) && o.db == End(cat, start, es))
  {
    hide Undo, Replayed, Clean, ValidDb, RoundTrips, Archivable, History, Twin, Loadable, RowLines, RunLines, KeepsKeys,
      PlanFor, Stationary;
    var twin := Twin(cat, ty, cols, start, es, toasted);
    OnlyRowsLoad(cat, ty, lines, 0);
    RunLoads(cat, ty, cols, start, es, toasted);
    TwinIsHistory(cat, ty, cols, start, es, toasted);
    UndoInvertsHistory(cat, start, twin, skip);
    if KeepsKeys(cat, es) {
      TwinKeepsKeys(cat, ty, cols, start, es, toasted);
      ReplayRedoesHistory(cat, start, twin, skip);
    }
  }

  // ---- Loaded keys are text ----------------------------------------------------------------

  /** A JSON string, as `mustJSON` writes the columns of a key, whatever their types. */
  function Quoted(t: string): Json { Scalar("\"" + t + "\"") }

  predicate IsText(v: Json) { v.Null? || (v.Scalar? && v.text != "" && v.text[0] == '"') }

  predicate TextKey(key: Row) { forall k | k in key :: IsText(key[k]) }

  /** Loaded changes as the log holds them: their keys still the text of the archive. */
  function InLog(ty: Types, log: seq<Change>): seq<Change> {
    seq(|log|, i requires 0 <= i < |log| => log[i].(pk := map k | k in log[i].pk ::
      var t := ty.show(k, log[i].pk[k]); if t.Some? then Quoted(t.value) else Null))
  }

  /** A line with an old image exactly if it is not an insert, as under REPLICA IDENTITY FULL. */
  predicate FullLine(line: Line) {
    line.RowLine? ==> line.change.op != T && (line.change.op == I <==> line.change.was.None?)
  }

  lemma {:induction false} LoadedWhole(cat: Catalog, ty: Types, lines: seq<Line>, next: nat)
    requires ValidCatalog(cat) && forall i | 0 <= i < |lines| :: FullLine(lines[i])
    ensures Whole(cat, Loadable(cat, ty, lines, next))
    decreases |lines|
  {
    if lines != [] {
      var n := |lines| - 1;
      LoadedWhole(cat, ty, lines[..n], next);
      assert FullLine(lines[n]);
      if lines[n].RowLine? && lines[n].change.table in cat {
        var s, a := cat[lines[n].change.table], lines[n].change;
        assert forall img: TextRow :: Populated(s, ty, img).Keys == s.Columns();
        assert WholeChange(cat, Restored(s, ty, a, next + |Loadable(cat, ty, lines[..n], next)|));
      }
    }
  }

  lemma InLogIsText(cat: Catalog, ty: Types, log: seq<Change>)
    requires Whole(cat, log)
    ensures Whole(cat, InLog(ty, log)) && forall i | 0 <= i < |InLog(ty, log)| :: TextKey(InLog(ty, log)[i].pk)
  {
    var win := InLog(ty, log);
    forall i | 0 <= i < |win|
      ensures WholeChange(cat, win[i]) && TextKey(win[i].pk)
    {
      assert WholeChange(cat, log[i]);
    }
  }

  lemma {:induction false} NotLogged(win: seq<Change>, id: RowId)
    requires (forall i | 0 <= i < |win| :: TextKey(win[i].pk)) && !TextKey(id.key)
    ensures OldestOf(win, id) == None
  {
    if win != [] {
      assert TextKey(win[0].pk);
      assert forall i | 0 <= i < |win| - 1 :: win[1..][i] == win[i + 1];
      NotLogged(win[1..], id);
    }
  }

  /**
   * But `as_of` does not see it: the join on keys is on the values themselves.  A place
   * whose key is not text is shown as it is now, so right exactly if it is now as it was;
   * and under every text key that no row has, the oldest loaded image comes back besides.
   */
  lemma {:induction false} AsOfMissesRestored(cat: Catalog, ty: Types, lines: seq<Line>, now: Db, past: Db, id: RowId)
    requires ValidDb(cat, now) && forall i | 0 <= i < |lines| :: FullLine(lines[i])
    ensures var win := InLog(ty, Loadable(cat, ty, lines, 0));
      && (!TextKey(id.key) ==>
           AsOfRow(now, win, id) == (if id in now then Some(now[id]) else None) &&
           (RightFor(now, win, past, id) <==> SameRow(now, past, id)))
      && (id !in now ==> AsOfRow(now, win, id) == Logged(win, id))
  {
    var log := Loadable(cat, ty, lines, 0);
    LoadedWhole(cat, ty, lines, 0);
    InLogIsText(cat, ty, log);
    hide ValidDb, Loadable, Whole, InLog, TextKey, FullLine, AsOfRow, OldestOf;
    AsOfRowIsLogged(cat, now, InLog(ty, log), id);
    if !TextKey(id.key) { NotLogged(InLog(ty, log), id); }
  }
}
