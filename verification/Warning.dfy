/** The statement triggers that notice a large statement: `_stmt_begin` and `_stmt_end`. */
module Warnings {

  /** Rows of one transaction among the ids drawn; 0 owns the ids nobody kept. */
  function Own(owners: seq<nat>, tx: nat): nat {
    if owners == [] then 0
    else Own(owners[..|owners| - 1], tx) + if owners[|owners| - 1] == tx then 1 else 0
  }

  lemma {:induction false} OwnConcat(a: seq<nat>, b: seq<nat>, tx: nat)
    ensures Own(a + b, tx) == Own(a, tx) + Own(b, tx)
    decreases |b|
  {
    if b == [] {
      assert a + b == a;
    } else {
      var n := |b| - 1;
      assert (a + b)[..|a| + n] == a + b[..n];
      OwnConcat(a, b[..n], tx);
    }
  }

  lemma {:induction false} OwnAtMost(owners: seq<nat>, tx: nat)
    ensures Own(owners, tx) <= |owners|
  {
    if owners != [] { OwnAtMost(owners[..|owners| - 1], tx); }
  }

  lemma OwnMore(owners: seq<nat>, mark: nat, owner: nat, tx: nat)
    requires mark <= |owners|
    ensures Own((owners + [owner])[mark..], tx) == Own(owners[mark..], tx) + if owner == tx then 1 else 0
  {
    assert (owners + [owner])[mark..] == owners[mark..] + [owner];
    OwnConcat(owners[mark..], [owner], tx);
    assert [owner][..0] == [];
  }

  /** Sessions that draw ids from the one sequence, in any interleaving. */
  class Server {
    const limit: int
    var owners: seq<nat>         // who wrote the row with each id, from id 1
    var marks: map<nat, nat>     // volvra.stmt_mark, per transaction

    /** Rows each transaction has written since it last began a statement. */
    ghost var wrote: map<nat, nat>

    ghost predicate Valid()
      reads this
    {
      wrote.Keys == marks.Keys && 0 !in marks &&
      forall tx | tx in marks :: marks[tx] <= |owners| && Own(owners[marks[tx]..], tx) == wrote[tx]
    }

    constructor (limit: int)
      ensures Valid() && this.limit == limit && owners == [] && wrote == map[]
    {
      this.limit := limit;
      owners, marks, wrote := [], map[], map[];
    }

    method StmtBegin(tx: nat)
      requires Valid() && tx != 0
      modifies this
      ensures Valid() && owners == old(owners) && wrote == old(wrote)[tx := 0]
    {
      marks := marks[tx := |owners|];
      wrote := wrote[tx := 0];
    }

    /** A row trigger writes one row, or only uses up the id. */
    method Draw(tx: nat, kept: bool)
      requires Valid() && tx != 0
      modifies this`owners, this`wrote
      ensures Valid() && owners == old(owners) + [if kept then tx else 0]
      ensures wrote == if kept && tx in old(wrote) then old(wrote)[tx := old(wrote)[tx] + 1] else old(wrote)
    {
      hide Own;
      var owner := if kept then tx else 0;
      forall t | t in marks
        ensures Own((owners + [owner])[marks[t]..], t) == wrote[t] + if owner == t then 1 else 0
      {
        OwnMore(owners, marks[t], owner, t);
      }
      owners := owners + [owner];
      wrote := if kept && tx in wrote then wrote[tx := wrote[tx] + 1] else wrote;
    }

    /** Warns exactly when the statement wrote more rows than the limit. */
    method StmtEnd(tx: nat) returns (warned: bool)
      requires Valid()
      ensures warned <==> limit > 0 && tx in wrote && wrote[tx] > limit
    {
      if limit <= 0 || tx !in marks {
        return false;
      }
      var mark := marks[tx];
      OwnAtMost(owners[mark..], tx);
      if |owners| - mark <= limit {
        return false;
      }
      var rows, i := 0, mark;
      assert owners[mark..mark] == [];
      while i < |owners| && rows < limit + 1
        invariant mark <= i <= |owners| && rows == Own(owners[mark..i], tx) && rows <= limit + 1
      {
        assert owners[mark..i + 1] == owners[mark..i] + [owners[i]];
        if owners[i] == tx {
          rows := rows + 1;
        }
        i := i + 1;
      }
      assert owners[mark..] == owners[mark..i] + owners[i..];
      OwnConcat(owners[mark..i], owners[i..], tx);
      assert i == |owners| ==> owners[i..] == [];
      return rows > limit;
    }
  }

  /** A statement run from inside another moves the mark: the outer one's own rows are not counted. */
  method NestedStatementHides(limit: nat, outer: nat) returns (warned: bool)
    requires outer > limit > 0
    ensures !warned
  {
    var s := new Server(limit);
    s.StmtBegin(1);
    for i := 0 to outer
      invariant s.Valid() && s.limit == limit && s.wrote == map[1 := i] && fresh(s)
    {
      s.Draw(1, true);
    }
    s.StmtBegin(1);
    warned := s.StmtEnd(1);
    warned := s.StmtEnd(1);
  }
}
