/**
 * The rows as_of returns, whatever key each was grouped under.  The query groups
 * changes by the key they were logged under; grouping them by the key they found
 * would always be right, so the query is right when both pick the same images.
 */
module AsOfRows {
  import opened Options
  import opened Tables
  import opened Capture
  import opened Inverse
  import opened Window
  import opened Conflicts
  import opened AsOf
  import opened AsOfKeys

  /** The oldest change logged under this key. */
  function OldestOf(win: seq<Change>, id: RowId): Option<Change> {
    if win == [] then None else if RowOf(win[0]) == id then Some(win[0]) else OldestOf(win[1..], id)
  }

  /** The image it carries, unless it inserted the row. */
  function Logged(win: seq<Change>, id: RowId): Option<Row> {
    var c := OldestOf(win, id);
    if c.Some? && c.value.op != I then c.value.oldRow else None
  }

  /** A change that found its row at this place. */
  predicate Finds(cat: Catalog, c: Change, id: RowId) {
    c.oldRow.Some? && c.table == id.table && id.table in cat && cat[id.table].Key(c.oldRow.value) == id.key
  }

  predicate About(cat: Catalog, c: Change, id: RowId) { RowOf(c) == id || Finds(cat, c, id) }

  predicate Noted(cat: Catalog, win: seq<Change>, id: RowId) {
    exists i | 0 <= i < |win| :: About(cat, win[i], id)
  }

  /** The image of the oldest change about this place, unless it put a row there. */
  function Found(cat: Catalog, win: seq<Change>, id: RowId): Option<Row> {
    if win == [] then None
    else if Finds(cat, win[0], id) then win[0].oldRow
    else if RowOf(win[0]) == id then None
    else Found(cat, win[1..], id)
  }

  /** Every image is a whole row. */
  predicate Whole(cat: Catalog, win: seq<Change>) {
    forall i | 0 <= i < |win| :: WholeChange(cat, win[i])
  }

  predicate WholeChange(cat: Catalog, c: Change) {
    c.op != T && c.table in cat && cat[c.table].Columns() != {} &&
    if c.op == I then c.oldRow == None else c.oldRow.Some? && c.oldRow.value.Keys == cat[c.table].Columns()
  }

  function OwnId(cat: Catalog, table: string, row: Row): RowId {
    RowId(table, if table in cat then cat[table].Key(row) else map[])
  }

  /** The rows of `answer`, each once, are the rows of `past`, whatever they are filed under. */
  ghost predicate ReturnsRows(cat: Catalog, table: string, answer: map<RowId, Row>, past: map<RowId, Row>) {
    && (forall g | g in answer :: var own := OwnId(cat, table, answer[g]); own in past && past[own] == answer[g])
    && (forall g, h | g in answer && h in answer && OwnId(cat, table, answer[g]) == OwnId(cat, table, answer[h]) :: g == h)
    && (forall id | id in past :: exists g :: g in answer && OwnId(cat, table, answer[g]) == id)
  }

  /** The two ways to group the changes of a table pick the same images, each once. */
  ghost predicate SamePicks(cat: Catalog, win: seq<Change>, table: string) {
    && (forall g: RowId | g.table == table && Logged(win, g).Some? ::
         Found(cat, win, OwnId(cat, table, Logged(win, g).value)) == Logged(win, g))
    && (forall g: RowId, h: RowId | g.table == table && h.table == table && Logged(win, g).Some? && Logged(win, h).Some? ::
         OwnId(cat, table, Logged(win, g).value) == OwnId(cat, table, Logged(win, h).value) ==> g == h)
    && (forall id: RowId | id.table == table && Found(cat, win, id).Some? ::
         exists g: RowId :: g.table == table && Logged(win, g).Some? && OwnId(cat, table, Logged(win, g).value) == id)
  }

  // ---- What the query finds, group by group ---------------------------------------------------

  lemma {:induction false} OverlaidWhole(cat: Catalog, win: seq<Change>, id: RowId)
    requires Whole(cat, win)
    ensures id.table in cat ==> OverlaidCols(win, id) <= cat[id.table].Columns()
  {
    if win != [] {
      assert WholeChange(cat, win[0]);
      assert forall i | 0 <= i < |win| - 1 :: win[1..][i] == win[i + 1];
      OverlaidWhole(cat, win[1..], id);
    }
  }

  /** A group shows its oldest image, or the present row if nothing was logged under its key. */
  lemma {:induction false} AsOfRowIsLogged(cat: Catalog, now: Db, win: seq<Change>, id: RowId)
    requires ValidDb(cat, now) && Whole(cat, win)
    ensures AsOfRow(now, win, id) ==
            if OldestOf(win, id).Some? then Logged(win, id) else if id in now then Some(now[id]) else None
  {
    if win == [] {
      AsOfNothing(now, id);
    } else {
      var c, rest := win[0], win[1..];
      assert win == [c] + rest && WholeChange(cat, c);
      assert forall i | 0 <= i < |rest| :: rest[i] == win[i + 1];
      AsOfRowIsLogged(cat, now, rest, id);
      OverlaidWhole(cat, rest, id);
      if id in now { ValidRowIsKeyed(cat, now, id); }
      hide AsOfRow, ValidDb;
      if RowOf(c) != id {
        AsOfFirst(now, c, rest, id);
      } else if c.op == I {
        OldestIs(now, c, rest, id);
      } else {
        WholeOldRow(now, c, rest, c.oldRow.value);
      }
    }
  }

  lemma {:induction false} LoggedFrom(win: seq<Change>, id: RowId) returns (i: nat)
    requires OldestOf(win, id).Some?
    ensures i < |win| && RowOf(win[i]) == id && OldestOf(win, id) == Some(win[i])
  {
    if RowOf(win[0]) == id { i := 0; } else { i := LoggedFrom(win[1..], id); i := i + 1; }
  }

  lemma {:induction false} LoggedBy(win: seq<Change>, i: nat)
    requires i < |win|
    ensures OldestOf(win, RowOf(win[i])).Some?
  {
    if i > 0 { LoggedBy(win[1..], i - 1); }
  }

  /** What a group shows was found where its own key says. */
  lemma LoggedIsNoted(cat: Catalog, win: seq<Change>, id: RowId)
    requires Whole(cat, win) && Logged(win, id).Some?
    ensures Noted(cat, win, OwnId(cat, id.table, Logged(win, id).value))
  {
    var i := LoggedFrom(win, id);
    assert WholeChange(cat, win[i]);
    assert About(cat, win[i], OwnId(cat, id.table, Logged(win, id).value));
  }

  // ---- What the past was, place by place -------------------------------------------------------

  lemma NotedFirst(cat: Catalog, c: Change, win: seq<Change>, id: RowId)
    ensures Noted(cat, [c] + win, id) <==> About(cat, c, id) || Noted(cat, win, id)
    ensures ([c] + win)[1..] == win
  {
    var all := [c] + win;
    if About(cat, c, id) { assert About(cat, all[0], id); }
    if Noted(cat, win, id) {
      var i :| 0 <= i < |win| && About(cat, win[i], id);
      assert About(cat, all[i + 1], id);
    }
  }

  /** What one recorded write finds, and where. */
  lemma FindsItsRow(cat: Catalog, start: Db, e: Entry, id: RowId)
    requires ValidDb(cat, start) && Extends(cat, start, e) && e.change.Some?
    requires ExactOld(start, e.write, e.change.value) && WholeOld(cat, e.change.value)
    ensures e.write.Table() in cat && WholeChange(cat, e.change.value)
    ensures var w, c := e.write, e.change.value;
      && RowOf(c) == Target(cat, w) && (Finds(cat, c, id) <==> !w.Ins? && w.id == id)
      && (!w.Ins? ==> w.id in start && c.oldRow == Some(start[w.id]))
      && (w.Ins? || Target(cat, w) != w.id ==> Target(cat, w) !in start)
  {
    var w, c := e.write, e.change.value;
    RecordedFaithful(cat, start, e);
    FaithfulRow(cat, start, w, c);
    if w.Ins? {
      ValidRowKeys(cat[w.table], w.row);
    } else {
      ValidRowIsKeyed(cat, start, w.id);
      SameValues(c.oldRow.value, start[w.id]);
      assert cat[w.id.table].Key(start[w.id]) == w.id.key;
    }
  }

  /** The images, grouped by the key each change found, say what a place held. */
  ghost predicate PastAt(cat: Catalog, start: Db, now: Db, win: seq<Change>, id: RowId) {
    && (if id in start then Some(start[id]) else None) ==
         (if Noted(cat, win, id) then Found(cat, win, id) else if id in now then Some(now[id]) else None)
    && (id in now && OldestOf(win, id).None? ==> !Noted(cat, win, id))
    && (id !in start && OldestOf(win, id).None? ==> id !in now)
  }

  lemma PastOneMore(cat: Catalog, start: Db, e: Entry, now: Db, win: seq<Change>, id: RowId)
    requires ValidDb(cat, start) && Extends(cat, start, e) && e.change.Some?
    requires ExactOld(start, e.write, e.change.value) && WholeOld(cat, e.change.value)
    requires e.write.Table() in cat && PastAt(cat, Written(cat, start, e.write), now, win, id)
    ensures PastAt(cat, start, now, [e.change.value] + win, id)
  {
    PlaceAfter(cat, start, e, id);
    FindsItsRow(cat, start, e, id);
    NotedFirst(cat, e.change.value, win, id);
    hide ValidDb, Extends, ExactOld, WholeOld, Noted, Finds, WholeChange, Written, Target;
  }

  /** Grouped by the key each change found, the images say what every place held. */
  lemma {:induction false} FoundIsPast(cat: Catalog, start: Db, es: seq<Entry>, id: RowId)
    requires ValidDb(cat, start) && History(cat, start, es) && ExactHistory(cat, start, es) && FullOld(cat, es)
    ensures PastAt(cat, start, End(cat, start, es), Log(es), id)
    decreases |es|
  {
    if es == [] {
      assert Log(es) == [];
    } else {
      hide ValidDb, History, Log, Extends, ExactHistory, FullOld, WholeOld, ExactOld, PastAt, Written;
      var mid := FirstEntry(cat, start, es);
      var e, win := es[0], Log(es[1..]);
      EntryTable(cat, start, e);
      FirstExact(cat, start, es);
      FullTail(cat, es);
      FoundIsPast(cat, mid, es[1..], id);
      if e.change.Some? {
        PastOneMore(cat, start, e, End(cat, start, es), win, id);
      } else {
        PlaceAfter(cat, start, e, id);
        assert [] + win == win;
      }
    }
  }

  lemma WholeOneMore(cat: Catalog, c: Change, win: seq<Change>)
    requires WholeChange(cat, c) && Whole(cat, win)
    ensures Whole(cat, [c] + win)
  {
    hide WholeChange;
  }

  lemma {:induction false} LogIsWhole(cat: Catalog, start: Db, es: seq<Entry>)
    requires ValidDb(cat, start) && History(cat, start, es) && ExactHistory(cat, start, es) && FullOld(cat, es)
    ensures Whole(cat, Log(es))
    decreases |es|
  {
    if es == [] {
      assert Log(es) == [];
    } else {
      hide ValidDb, History, Log, Extends, ExactHistory, FullOld, WholeOld, ExactOld, WholeChange, Written, Whole, Target, Finds;
      var mid := FirstEntry(cat, start, es);
      var e := es[0];
      EntryTable(cat, start, e);
      FirstExact(cat, start, es);
      FullTail(cat, es);
      LogIsWhole(cat, mid, es[1..]);
      if e.change.Some? {
        FindsItsRow(cat, start, e, Target(cat, e.write));
        WholeOneMore(cat, e.change.value, Log(es[1..]));
      } else {
        assert [] + Log(es[1..]) == Log(es[1..]);
      }
    }
  }

  /** One write, seen from one place. */
  lemma PlaceAfter(cat: Catalog, start: Db, e: Entry, id: RowId)
    requires ValidDb(cat, start) && Extends(cat, start, e) && e.write.Table() in cat
    ensures var w, after := e.write, Written(cat, start, e.write);
      && (e.change.None? ==> after == start)
      && (id != Target(cat, w) && (w.Ins? || id != w.id) ==>
           (id in after <==> id in start) && (id in start ==> after[id] == start[id]))
      && (id != Target(cat, w) && !w.Ins? && id == w.id ==> id !in after)
  {
    if e.change.None? { UnrecordedChangesNothing(cat, start, e); }
  }

  // ---- The rows returned ------------------------------------------------------------------------

  /** What `answer` and `past` have at one place. */
  ghost predicate MadeAt(cat: Catalog, table: string, now: Db, win: seq<Change>, answer: map<RowId, Row>, past: map<RowId, Row>, g: RowId) {
    && (g in answer <==> (g.table == table && if OldestOf(win, g).Some? then Logged(win, g).Some? else g in now))
    && (g in answer ==> answer[g] == if OldestOf(win, g).Some? then Logged(win, g).GetOr(map[]) else now[g])
    && (g in past <==> (g.table == table && if Noted(cat, win, g) then Found(cat, win, g).Some? else g in now))
    && (g in past ==> past[g] == if Noted(cat, win, g) then Found(cat, win, g).GetOr(map[]) else now[g])
    && (g in now && g.table == table ==> OwnId(cat, table, now[g]) == g)
    && (g in now && OldestOf(win, g).None? ==> !Noted(cat, win, g))
    && (g.table == table && Logged(win, g).Some? ==> Noted(cat, win, OwnId(cat, table, Logged(win, g).value)))
    && (!Noted(cat, win, g) ==> OldestOf(win, g).None?)
  }

  ghost predicate MadeOf(cat: Catalog, table: string, now: Db, win: seq<Change>, answer: map<RowId, Row>, past: map<RowId, Row>) {
    forall g: RowId :: MadeAt(cat, table, now, win, answer, past, g)
  }

  lemma PlaceMade(cat: Catalog, start: Db, now: Db, win: seq<Change>, table: string, g: RowId)
    requires ValidDb(cat, now) && Whole(cat, win) && PastAt(cat, start, now, win, g)
    ensures MadeAt(cat, table, now, win, AsOfTable(now, win, table), TableAt(start, table), g)
  {
    hide ValidDb, AsOfRow, AsOfTable, Noted, OldestOf, Found, Whole, OwnId;
    InAnswer(now, win, table, g);
    AsOfRowIsLogged(cat, now, win, g);
    if !Noted(cat, win, g) { UnnotedUnlogged(cat, win, g); }
    if g in now { OwnPlace(cat, now, g); }
    if Logged(win, g).Some? { LoggedIsNoted(cat, win, g); }
  }

  lemma AnswerMadeOf(cat: Catalog, start: Db, es: seq<Entry>, table: string)
    requires ValidDb(cat, start) && History(cat, start, es) && ExactHistory(cat, start, es) && FullOld(cat, es)
    ensures var now, win := End(cat, start, es), Log(es);
            MadeOf(cat, table, now, win, AsOfTable(now, win, table), TableAt(start, table))
  {
    hide ValidDb, History, ExactHistory, FullOld, Log, AsOfTable, TableAt, Whole, PastAt, MadeAt;
    var now, win := End(cat, start, es), Log(es);
    LogIsWhole(cat, start, es);
    EndIsValid(cat, start, es);
    forall g: RowId ensures MadeAt(cat, table, now, win, AsOfTable(now, win, table), TableAt(start, table), g) {
      FoundIsPast(cat, start, es, g);
      PlaceMade(cat, start, now, win, table, g);
    }
  }

  lemma OwnPlace(cat: Catalog, db: Db, id: RowId)
    requires ValidDb(cat, db) && id in db
    ensures OwnId(cat, id.table, db[id]) == id
  {
  }

  lemma UnnotedUnlogged(cat: Catalog, win: seq<Change>, id: RowId)
    requires !Noted(cat, win, id)
    ensures OldestOf(win, id).None?
  {
    if OldestOf(win, id).Some? {
      var i := LoggedFrom(win, id);
      assert About(cat, win[i], id);
    }
  }

  lemma PicksReturn(cat: Catalog, table: string, now: Db, win: seq<Change>, answer: map<RowId, Row>, past: map<RowId, Row>)
    requires MadeOf(cat, table, now, win, answer, past) && SamePicks(cat, win, table)
    ensures ReturnsRows(cat, table, answer, past)
  {
    hide OldestOf, Found, Noted, OwnId, MadeOf, MadeAt;
    forall g: RowId | g in answer
      ensures var own := OwnId(cat, table, answer[g]); own in past && past[own] == answer[g]
    {
      ReturnedIsPast(cat, table, now, win, answer, past, g);
    }
    forall g: RowId, h: RowId | g in answer && h in answer && OwnId(cat, table, answer[g]) == OwnId(cat, table, answer[h])
      ensures g == h
    {
      ReturnedOnce(cat, table, now, win, answer, past, g, h);
    }
    forall id: RowId | id in past
      ensures exists g :: g in answer && OwnId(cat, table, answer[g]) == id
    {
      PastReturned(cat, table, now, win, answer, past, id);
    }
  }

  lemma ReturnedIsPast(cat: Catalog, table: string, now: Db, win: seq<Change>, answer: map<RowId, Row>, past: map<RowId, Row>, g: RowId)
    requires MadeOf(cat, table, now, win, answer, past) && SamePicks(cat, win, table) && g in answer
    ensures var own := OwnId(cat, table, answer[g]); own in past && past[own] == answer[g]
  {
    hide OldestOf, Found, Noted, OwnId, MadeOf;
    MadeHere(cat, table, now, win, answer, past, g);
    MadeHere(cat, table, now, win, answer, past, OwnId(cat, table, answer[g]));
    OwnTable(cat, table, answer[g]);
  }

  lemma ReturnedOnce(cat: Catalog, table: string, now: Db, win: seq<Change>, answer: map<RowId, Row>, past: map<RowId, Row>, g: RowId, h: RowId)
    requires MadeOf(cat, table, now, win, answer, past) && SamePicks(cat, win, table) && g in answer && h in answer
    requires OwnId(cat, table, answer[g]) == OwnId(cat, table, answer[h])
    ensures g == h
  {
    hide OldestOf, Found, Noted, OwnId, MadeOf;
    MadeHere(cat, table, now, win, answer, past, g);
    MadeHere(cat, table, now, win, answer, past, h);
  }

  lemma PastReturned(cat: Catalog, table: string, now: Db, win: seq<Change>, answer: map<RowId, Row>, past: map<RowId, Row>, id: RowId)
    requires MadeOf(cat, table, now, win, answer, past) && SamePicks(cat, win, table) && id in past
    ensures exists g :: g in answer && OwnId(cat, table, answer[g]) == id
  {
    hide OldestOf, Found, Noted, OwnId, MadeOf;
    MadeHere(cat, table, now, win, answer, past, id);
    if Noted(cat, win, id) {
      var g: RowId :| g.table == table && Logged(win, g).Some? && OwnId(cat, table, Logged(win, g).value) == id;
      MadeHere(cat, table, now, win, answer, past, g);
      assert g in answer;
    } else {
      assert id in answer;
    }
  }

  lemma OwnTable(cat: Catalog, table: string, row: Row)
    ensures OwnId(cat, table, row).table == table
  {
  }

  lemma MadeHere(cat: Catalog, table: string, now: Db, win: seq<Change>, answer: map<RowId, Row>, past: map<RowId, Row>, g: RowId)
    requires MadeOf(cat, table, now, win, answer, past)
    ensures MadeAt(cat, table, now, win, answer, past, g)
  {
  }

  lemma ReturnedPicks(cat: Catalog, table: string, now: Db, win: seq<Change>, answer: map<RowId, Row>, past: map<RowId, Row>)
    requires MadeOf(cat, table, now, win, answer, past) && ReturnsRows(cat, table, answer, past)
    ensures SamePicks(cat, win, table)
  {
    hide OldestOf, Found, Noted, Logged, OwnId, MadeOf, MadeAt, ReturnsRows;
    forall g: RowId | g.table == table && Logged(win, g).Some?
      ensures Found(cat, win, OwnId(cat, table, Logged(win, g).value)) == Logged(win, g)
    {
      LoggedPicked(cat, table, now, win, answer, past, g);
    }
    forall g: RowId, h: RowId | g.table == table && h.table == table && Logged(win, g).Some? && Logged(win, h).Some? &&
                                OwnId(cat, table, Logged(win, g).value) == OwnId(cat, table, Logged(win, h).value)
      ensures g == h
    {
      LoggedOnce(cat, table, now, win, answer, past, g, h);
    }
    forall id: RowId | id.table == table && Found(cat, win, id).Some?
      ensures exists g: RowId :: g.table == table && Logged(win, g).Some? && OwnId(cat, table, Logged(win, g).value) == id
    {
      FoundPicked(cat, table, now, win, answer, past, id);
    }
  }

  lemma LoggedPicked(cat: Catalog, table: string, now: Db, win: seq<Change>, answer: map<RowId, Row>, past: map<RowId, Row>, g: RowId)
    requires MadeOf(cat, table, now, win, answer, past) && ReturnsRows(cat, table, answer, past)
    requires g.table == table && Logged(win, g).Some?
    ensures Found(cat, win, OwnId(cat, table, Logged(win, g).value)) == Logged(win, g)
  {
    hide OldestOf, Found, Noted, OwnId, MadeOf;
    MadeHere(cat, table, now, win, answer, past, g);
    MadeHere(cat, table, now, win, answer, past, OwnId(cat, table, Logged(win, g).value));
  }

  lemma LoggedOnce(cat: Catalog, table: string, now: Db, win: seq<Change>, answer: map<RowId, Row>, past: map<RowId, Row>, g: RowId, h: RowId)
    requires MadeOf(cat, table, now, win, answer, past) && ReturnsRows(cat, table, answer, past)
    requires g.table == table && h.table == table && Logged(win, g).Some? && Logged(win, h).Some?
    requires OwnId(cat, table, Logged(win, g).value) == OwnId(cat, table, Logged(win, h).value)
    ensures g == h
  {
    hide OldestOf, Found, Noted, OwnId, MadeOf;
    MadeHere(cat, table, now, win, answer, past, g);
    MadeHere(cat, table, now, win, answer, past, h);
  }

  lemma FoundPicked(cat: Catalog, table: string, now: Db, win: seq<Change>, answer: map<RowId, Row>, past: map<RowId, Row>, id: RowId)
    requires MadeOf(cat, table, now, win, answer, past) && ReturnsRows(cat, table, answer, past)
    requires id.table == table && Found(cat, win, id).Some?
    ensures exists g: RowId :: g.table == table && Logged(win, g).Some? && OwnId(cat, table, Logged(win, g).value) == id
  {
    hide OldestOf, Found, Noted, OwnId, MadeOf;
    FoundIsNoted(cat, win, id);
    MadeHere(cat, table, now, win, answer, past, id);
    assert id in past;
    var g: RowId :| g in answer && OwnId(cat, table, answer[g]) == id;
    MadeHere(cat, table, now, win, answer, past, g);
  }

  lemma {:induction false} FoundIsNoted(cat: Catalog, win: seq<Change>, id: RowId)
    requires Found(cat, win, id).Some?
    ensures Noted(cat, win, id)
  {
    if Finds(cat, win[0], id) {
      assert About(cat, win[0], id);
    } else {
      FoundIsNoted(cat, win[1..], id);
      var i :| 0 <= i < |win[1..]| && About(cat, win[1..][i], id);
      assert About(cat, win[i + 1], id);
    }
  }

  /**
   * With full images, as_of returns exactly the rows of the past, each once, if and
   * only if grouping the log by the keys it was logged under picks the images that
   * grouping it by the keys it found does.
   */
  lemma AsOfRowsIff(cat: Catalog, start: Db, es: seq<Entry>, table: string)
    requires ValidDb(cat, start) && History(cat, start, es) && ExactHistory(cat, start, es) && FullOld(cat, es)
    ensures ReturnsRows(cat, table, AsOfTable(End(cat, start, es), Log(es), table), TableAt(start, table)) <==>
            SamePicks(cat, Log(es), table)
  {
    hide ValidDb, History, ExactHistory, FullOld, Log, AsOfTable, TableAt, SamePicks, ReturnsRows, MadeOf, Found, Noted;
    var now, win := End(cat, start, es), Log(es);
    AnswerMadeOf(cat, start, es, table);
    if SamePicks(cat, win, table) {
      PicksReturn(cat, table, now, win, AsOfTable(now, win, table), TableAt(start, table));
    }
    if ReturnsRows(cat, table, AsOfTable(now, win, table), TableAt(start, table)) {
      ReturnedPicks(cat, table, now, win, AsOfTable(now, win, table), TableAt(start, table));
    }
  }

  /** No two changes are about one place: every row changed at most once, moves included. */
  ghost predicate OncePerPlace(cat: Catalog, win: seq<Change>) {
    forall i, j, id | 0 <= i < |win| && 0 <= j < |win| && About(cat, win[i], id) && About(cat, win[j], id) :: i == j
  }

  lemma {:induction false} OnlyFound(cat: Catalog, win: seq<Change>, i: nat, id: RowId)
    requires OncePerPlace(cat, win) && i < |win| && Finds(cat, win[i], id)
    ensures Found(cat, win, id) == win[i].oldRow
  {
    assert About(cat, win[i], id);
    if i > 0 {
      assert !About(cat, win[0], id);
      forall j, k, x | 0 <= j < |win| - 1 && 0 <= k < |win| - 1 && About(cat, win[1..][j], x) && About(cat, win[1..][k], x)
        ensures j == k
      {
        assert About(cat, win[j + 1], x) && About(cat, win[k + 1], x);
      }
      OnlyFound(cat, win[1..], i - 1, id);
    }
  }

  lemma {:induction false} FoundFrom(cat: Catalog, win: seq<Change>, id: RowId) returns (i: nat)
    requires Found(cat, win, id).Some?
    ensures i < |win| && Finds(cat, win[i], id) && Found(cat, win, id) == win[i].oldRow
  {
    if Finds(cat, win[0], id) { i := 0; } else { i := FoundFrom(cat, win[1..], id); i := i + 1; }
  }

  /** So a row that did nothing but move comes back right. */
  lemma MovedOnceReturns(cat: Catalog, win: seq<Change>, table: string)
    requires Whole(cat, win) && OncePerPlace(cat, win)
    ensures SamePicks(cat, win, table)
  {
    hide Found, OldestOf, WholeChange;
    forall g: RowId | g.table == table && Logged(win, g).Some?
      ensures Found(cat, win, OwnId(cat, table, Logged(win, g).value)) == Logged(win, g)
    {
      var i := LoggedFrom(win, g);
      WholeImage(cat, win, i);
      OnlyFound(cat, win, i, OwnId(cat, table, Logged(win, g).value));
    }
    forall g: RowId, h: RowId | g.table == table && h.table == table && Logged(win, g).Some? && Logged(win, h).Some? &&
                                OwnId(cat, table, Logged(win, g).value) == OwnId(cat, table, Logged(win, h).value)
      ensures g == h
    {
      var i := LoggedFrom(win, g);
      var j := LoggedFrom(win, h);
      WholeImage(cat, win, i);
      WholeImage(cat, win, j);
      var id := OwnId(cat, table, Logged(win, g).value);
      assert About(cat, win[i], id) && About(cat, win[j], id);
    }
    forall id: RowId | id.table == table && Found(cat, win, id).Some?
      ensures exists g: RowId :: g.table == table && Logged(win, g).Some? && OwnId(cat, table, Logged(win, g).value) == id
    {
      var i := FoundFrom(cat, win, id);
      WholeImage(cat, win, i);
      var g := RowOf(win[i]);
      LoggedBy(win, i);
      var j := LoggedFrom(win, g);
      assert About(cat, win[i], g) && About(cat, win[j], g);
    }
  }

  lemma WholeImage(cat: Catalog, win: seq<Change>, i: nat)
    requires Whole(cat, win) && i < |win|
    ensures win[i].table in cat && (win[i].op == I <==> win[i].oldRow.None?)
  {
    assert WholeChange(cat, win[i]);
  }
}
