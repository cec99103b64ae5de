/** What each compensating statement does to the tables when it runs. */
module Statements {
  import opened Options
  import opened Json
  import opened Tables

  /** `expected` is the conflict guard; None is a statement built without one. */
  datatype Stmt =
    | InsertStmt(table: string, img: Row)
    | DeleteStmt(id: RowId, expected: Option<Row>)
    | UpdateStmt(id: RowId, cols: set<string>, img: Row, expected: Option<Row>)
  {
    function Table(): string { if InsertStmt? then table else id.table }
  }

  /** One row affected, none affected, or an error that aborts the transaction. */
  datatype Effect = Hit(db: Db) | Miss | Raise(error: SqlError)
  datatype SqlError = NotNullViolation | UniqueViolation

  predicate GuardHolds(row: Row, expected: Option<Row>) {
    expected.None? || Holds(row, expected.value)
  }

  predicate NullInKey(key: Row) {
    exists c | c in key :: key[c] == Null
  }

  /** The row an UPDATE writes: assigned columns from the image, the rest as they were. */
  function Assign(s: Schema, row: Row, cols: set<string>, img: Row): Row {
    s.Fill(row + map c | c in cols :: Get(img, c))
  }

  function Exec(cat: Catalog, db: Db, st: Stmt): Effect
    requires st.Table() in cat
  {
    var s := cat[st.Table()];
    match st
    case InsertStmt(table, img) =>
      var id := RowId(table, s.Key(img));
      if NullInKey(id.key) then Raise(NotNullViolation)
      else if id in db then Miss              // ON CONFLICT DO NOTHING
      else Hit(db[id := s.Fill(img)])
    case DeleteStmt(id, expected) =>
      if id in db && GuardHolds(db[id], expected) then Hit(db - {id}) else Miss
    case UpdateStmt(id, cols, img, expected) =>
      if id in db && GuardHolds(db[id], expected) then
        var row := Assign(s, db[id], cols, img);
        var target := RowId(id.table, s.Key(row));
        if NullInKey(target.key) then Raise(NotNullViolation)
        else if target != id && target in db then Raise(UniqueViolation)
        else Hit((db - {id})[target := row])
      else Miss
  }

  /** What ended one step of a plan. */
  datatype Status = Applied | Skipped | Satisfied

  /** Why a plan cannot be built. */
  datatype PlanError =
    | UncapturedTruncate
    | TableGone
    | NoPrimaryKey
    | KeyRedefined
    | ShapeChanged
    | NoImage
    | NothingAssignable

  datatype Why = NoPlan(error: PlanError) | OverCap | AtStep(n: nat)

  /** How an undo or replay ended.  A refusal leaves the tables as they were. */
  datatype Outcome =
    | Done(db: Db, statuses: seq<Status>)
    | Refused(why: Why)

  /** Every statement names a table the catalog knows. */
  predicate Known(cat: Catalog, stmts: seq<Stmt>) {
    forall i | 0 <= i < |stmts| :: stmts[i].Table() in cat
  }

  /** One turn of the apply loop; None is the exception that refuses the whole plan. */
  function Step(cat: Catalog, db: Db, st: Stmt, skip: bool, replay: bool): Option<(Db, Status)>
    requires st.Table() in cat
  {
    match Exec(cat, db, st)
    case Hit(db') => Some((db', Applied))
    case Raise(_) => None
    case Miss =>
      // A replayed delete whose row is already absent has met its goal.
      if replay && st.DeleteStmt? && st.id !in db then Some((db, Satisfied))
      else if skip then Some((db, Skipped))
      else None
  }

  /**
   * The apply loop of undo and replay, as a function of the tables.  A refusal
   * is an exception, so nothing the earlier steps did survives it.
   */
  function Apply(cat: Catalog, db: Db, stmts: seq<Stmt>, skip: bool, replay: bool): (o: Outcome)
    requires Known(cat, stmts)
    ensures o.Done? ==> |o.statuses| == |stmts|
    decreases |stmts|
  {
    if stmts == [] then Done(db, [])
    else
      var n := |stmts| - 1;
      var before := Apply(cat, db, stmts[..n], skip, replay);
      if before.Refused? then before
      else
        var last := Step(cat, before.db, stmts[n], skip, replay);
        if last.None? then Refused(AtStep(n)) else Done(last.value.0, before.statuses + [last.value.1])
  }

  /** The outcome of a plan whose first steps ended with `done`. */
  function Then(done: seq<Status>, rest: Outcome): Outcome {
    match rest
    case Done(db, statuses) => Done(db, done + statuses)
    case Refused(why) => Refused(if why.AtStep? then AtStep(|done| + why.n) else why)
  }

  /** Running two plans in a row is running their concatenation. */
  lemma {:induction false} ApplyConcat(cat: Catalog, db: Db, a: seq<Stmt>, b: seq<Stmt>, skip: bool, replay: bool)
    requires Known(cat, a) && Known(cat, b)
    ensures Known(cat, a + b)
    ensures var first := Apply(cat, db, a, skip, replay);
            Apply(cat, db, a + b, skip, replay) ==
              if first.Refused? then first else Then(first.statuses, Apply(cat, first.db, b, skip, replay))
    decreases |b|
  {
    hide Step;
    if b == [] {
      assert a + b == a;
    } else {
      var n := |b| - 1;
      assert (a + b)[..|a| + n] == a + b[..n] && (a + b)[|a| + n] == b[n];
      ApplyConcat(cat, db, a, b[..n], skip, replay);
    }
  }

  lemma ApplyOne(cat: Catalog, db: Db, st: Stmt, skip: bool, replay: bool)
    requires st.Table() in cat
    ensures var first := Step(cat, db, st, skip, replay);
            Apply(cat, db, [st], skip, replay) ==
              if first.None? then Refused(AtStep(0)) else Done(first.value.0, [first.value.1])
  {
    hide Step;
    assert [st][..0] == [];
    assert Apply(cat, db, [st][..0], skip, replay) == Done(db, []);
  }

  /** Taking the first statement off a plan. */
  lemma ApplyFirst(cat: Catalog, db: Db, st: Stmt, rest: seq<Stmt>, skip: bool, replay: bool)
    requires st.Table() in cat && Known(cat, rest)
    ensures Known(cat, [st] + rest)
    ensures var first := Step(cat, db, st, skip, replay);
            Apply(cat, db, [st] + rest, skip, replay) ==
              if first.None? then Refused(AtStep(0))
              else Then([first.value.1], Apply(cat, first.value.0, rest, skip, replay))
  {
    hide Step, Apply;
    ApplyOne(cat, db, st, skip, replay);
    ApplyConcat(cat, db, [st], rest, skip, replay);
  }

  lemma FilledRowIsValid(s: Schema, img: Row)
    requires s.Valid() && !NullInKey(s.Key(img))
    ensures s.ValidRow(s.Fill(img)) && s.Key(s.Fill(img)) == s.Key(img)
  {
    FillKeepsStored(s, img);
    forall c | c in s.pk ensures Get(s.Fill(img), c) != Null {
      assert c in s.Key(img) && s.Key(img)[c] == Get(img, c);
    }
  }

  lemma AssignIsFill(s: Schema, row: Row, cols: set<string>, img: Row)
    requires s.Valid() && !NullInKey(s.Key(Assign(s, row, cols, img)))
    ensures s.ValidRow(Assign(s, row, cols, img))
  {
    var merged := row + map c | c in cols :: Get(img, c);
    FillKeepsStored(s, merged);
    FilledRowIsValid(s, merged);
  }

  lemma RemoveKeepsValid(cat: Catalog, db: Db, id: RowId)
    requires ValidDb(cat, db)
    ensures ValidDb(cat, db - {id})
  {
  }

  lemma ExecKeepsValid(cat: Catalog, db: Db, st: Stmt)
    requires st.Table() in cat && ValidDb(cat, db)
    ensures Exec(cat, db, st).Hit? ==> ValidDb(cat, Exec(cat, db, st).db)
  {
    var s := cat[st.Table()];
    if Exec(cat, db, st).Hit? {
      match st
      case InsertStmt(table, img) =>
        FilledRowIsValid(s, img);
        PutKeepsValid(cat, db, RowId(table, s.Key(img)), s.Fill(img));
      case DeleteStmt(id, _) =>
        RemoveKeepsValid(cat, db, id);
      case UpdateStmt(id, cols, img, _) =>
        AssignIsFill(s, db[id], cols, img);
        RemoveKeepsValid(cat, db, id);
        var row := Assign(s, db[id], cols, img);
        PutKeepsValid(cat, db - {id}, RowId(id.table, s.Key(row)), row);
    }
  }

  lemma {:induction false} ApplyKeepsValid(cat: Catalog, db: Db, stmts: seq<Stmt>, skip: bool, replay: bool)
    requires Known(cat, stmts) && ValidDb(cat, db)
    ensures Apply(cat, db, stmts, skip, replay).Done? ==>
              ValidDb(cat, Apply(cat, db, stmts, skip, replay).db)
    decreases |stmts|
  {
    if stmts != [] {
      var n := |stmts| - 1;
      ApplyKeepsValid(cat, db, stmts[..n], skip, replay);
      var o := Apply(cat, db, stmts[..n], skip, replay);
      if o.Done? { ExecKeepsValid(cat, o.db, stmts[n]); }
    }
  }
}
