/**
 * The advisory locks of concurrent undos and replays.  Each operation locks its
 * distinct tables in name order, one hashed key per table, and holds them all to
 * commit.  Tables are numbered in name order.
 */
module Locks {

  datatype Session = Session(tables: seq<nat>, taken: nat, committed: bool) {
    predicate Waiting() { !committed && taken < |tables| }
  }

  type System = seq<Session>
  type LockKey = nat -> int

  predicate Ordered(tables: seq<nat>) {
    forall i, j | 0 <= i < j < |tables| :: tables[i] < tables[j]
  }

  predicate WellFormed(sys: System) {
    forall i | 0 <= i < |sys| :: Ordered(sys[i].tables) && sys[i].taken <= |sys[i].tables|
  }

  predicate Holds(key: LockKey, s: Session, k: int) {
    !s.committed && exists n | 0 <= n < s.taken && n < |s.tables| :: key(s.tables[n]) == k
  }

  /** A lock the session holds itself never blocks it. */
  predicate Blocked(key: LockKey, sys: System, i: nat)
    requires i < |sys|
  {
    sys[i].Waiting() &&
    exists j | 0 <= j < |sys| && j != i :: Holds(key, sys[j], key(sys[i].tables[sys[i].taken]))
  }

  /** Session i takes its next lock, or commits and releases them all. */
  predicate CanStep(key: LockKey, sys: System, i: nat) {
    i < |sys| && !sys[i].committed && !Blocked(key, sys, i)
  }

  function Step(sys: System, i: nat): System
    requires i < |sys|
  {
    sys[i := if sys[i].Waiting() then sys[i].(taken := sys[i].taken + 1) else sys[i].(committed := true)]
  }

  /** The state after a schedule; every session in it must be able to step in turn. */
  ghost predicate Reaches(key: LockKey, start: System, schedule: seq<nat>, end: System)
    decreases |schedule|
  {
    if schedule == [] then start == end
    else
      var earlier, i := schedule[..|schedule| - 1], schedule[|schedule| - 1];
      exists mid :: Reaches(key, start, earlier, mid) && CanStep(key, mid, i) && end == Step(mid, i)
  }

  /** Operations that have planned and not locked anything yet. */
  predicate Starting(sys: System) {
    forall i | 0 <= i < |sys| :: Ordered(sys[i].tables) && sys[i].taken == 0 && !sys[i].committed
  }

  predicate Finished(sys: System) {
    forall i | 0 <= i < |sys| :: sys[i].committed
  }

  ghost predicate DeadlockFree(key: LockKey) {
    forall start, schedule, end | Starting(start) && Reaches(key, start, schedule, end) && !Finished(end) ::
      exists i :: CanStep(key, end, i)
  }

  /** Tables hashed to one key are neighbours in name order. */
  ghost predicate Convex(key: LockKey) {
    forall a: nat, b: nat, c: nat | a < b < c && key(a) == key(c) :: key(b) == key(a)
  }

  ghost predicate Exclusive(key: LockKey, sys: System) {
    forall i, j, k | 0 <= i < j < |sys| :: !(Holds(key, sys[i], k) && Holds(key, sys[j], k))
  }

  lemma StepKeepsExclusive(key: LockKey, sys: System, i: nat)
    requires WellFormed(sys) && Exclusive(key, sys) && CanStep(key, sys, i)
    ensures WellFormed(Step(sys, i)) && Exclusive(key, Step(sys, i))
  {
    var next := Step(sys, i);
    forall k | Holds(key, next[i], k)
      ensures Holds(key, sys[i], k) || (sys[i].Waiting() && k == key(sys[i].tables[sys[i].taken]))
    {
    }
    forall a, b, k | 0 <= a < b < |next| ensures !(Holds(key, next[a], k) && Holds(key, next[b], k)) {
      var other := if a == i then b else a;
      assert !(Holds(key, sys[a], k) && Holds(key, sys[b], k));
      if a == i || b == i {
        assert sys[i].Waiting() && k == key(sys[i].tables[sys[i].taken]) ==> !Holds(key, sys[other], k);
      }
    }
  }

  /** No two sessions ever hold the same lock. */
  lemma {:induction false} ReachableIsExclusive(key: LockKey, start: System, schedule: seq<nat>, end: System)
    requires Starting(start) && Reaches(key, start, schedule, end)
    ensures WellFormed(end) && Exclusive(key, end)
    decreases |schedule|
  {
    if schedule != [] {
      var n := |schedule| - 1;
      var mid :| Reaches(key, start, schedule[..n], mid) && CanStep(key, mid, schedule[n]) && end == Step(mid, schedule[n]);
      ReachableIsExclusive(key, start, schedule[..n], mid);
      StepKeepsExclusive(key, mid, schedule[n]);
    }
  }

  /** Among the first n sessions, one waiting for the last table in name order. */
  lemma {:induction false} LastWaiting(sys: System, n: nat) returns (i: nat)
    requires n <= |sys| && exists j :: 0 <= j < n && sys[j].Waiting()
    ensures i < n && sys[i].Waiting()
    ensures forall j | 0 <= j < n && sys[j].Waiting() ::
              sys[j].tables[sys[j].taken] <= sys[i].tables[sys[i].taken]
  {
    if exists j :: 0 <= j < n - 1 && sys[j].Waiting() {
      i := LastWaiting(sys, n - 1);
      if sys[n - 1].Waiting() && sys[n - 1].tables[sys[n - 1].taken] > sys[i].tables[sys[i].taken] { i := n - 1; }
    } else {
      i := n - 1;
    }
  }

  lemma ConvexNeverStuck(key: LockKey, sys: System)
    requires Convex(key) && WellFormed(sys) && Exclusive(key, sys) && !Finished(sys)
    ensures exists i :: CanStep(key, sys, i)
  {
    var u :| 0 <= u < |sys| && !sys[u].committed;
    if !sys[u].Waiting() {
      assert CanStep(key, sys, u);
    } else {
      var i := LastWaiting(sys, |sys|);
      if Blocked(key, sys, i) {
        var t := sys[i].tables[sys[i].taken];
        var j :| 0 <= j < |sys| && j != i && Holds(key, sys[j], key(t));
        HolderSteps(key, sys, i, j);
      } else {
        assert CanStep(key, sys, i);
      }
    }
  }

  /** Whoever holds the last lock anyone waits for is not itself blocked. */
  lemma HolderSteps(key: LockKey, sys: System, i: nat, j: nat)
    requires Convex(key) && WellFormed(sys) && Exclusive(key, sys)
    requires i < |sys| && j < |sys| && i != j && sys[i].Waiting()
    requires forall x | 0 <= x < |sys| && sys[x].Waiting() ::
               sys[x].tables[sys[x].taken] <= sys[i].tables[sys[i].taken]
    requires Holds(key, sys[j], key(sys[i].tables[sys[i].taken]))
    ensures CanStep(key, sys, j)
  {
    var t := sys[i].tables[sys[i].taken];
    var n :| 0 <= n < sys[j].taken && n < |sys[j].tables| && key(sys[j].tables[n]) == key(t);
    if sys[j].Waiting() {
      var next := sys[j].tables[sys[j].taken];
      assert sys[j].tables[n] < next <= t;
      assert key(next) == key(t);
      forall x | 0 <= x < |sys| && x != j ensures !Holds(key, sys[x], key(next)) {
        var a, b := if x < j then x else j, if x < j then j else x;
        assert !(Holds(key, sys[a], key(t)) && Holds(key, sys[b], key(t)));
      }
    }
  }

  function Crossed(a: nat, b: nat, c: nat, x: nat, y: nat): System {
    [Session([a, b], x, false), Session([b, c], y, false)]
  }

  lemma CrossedIsStuck(key: LockKey, a: nat, b: nat, c: nat)
    requires a < b < c && key(a) == key(c) && key(b) != key(a)
    ensures forall i :: !CanStep(key, Crossed(a, b, c, 1, 1), i)
  {
    var end := Crossed(a, b, c, 1, 1);
    assert Holds(key, end[0], key(c)) by { assert key(end[0].tables[0]) == key(c); }
    assert Holds(key, end[1], key(b)) by { assert key(end[1].tables[0]) == key(b); }
    assert Blocked(key, end, 0) && Blocked(key, end, 1);
  }

  lemma CrossedIsReached(key: LockKey, a: nat, b: nat, c: nat)
    requires a < b < c && key(a) == key(c) && key(b) != key(a)
    ensures Reaches(key, Crossed(a, b, c, 0, 0), [0, 1], Crossed(a, b, c, 1, 1))
  {
    var start, mid, end := Crossed(a, b, c, 0, 0), Crossed(a, b, c, 1, 0), Crossed(a, b, c, 1, 1);
    assert CanStep(key, start, 0) && Step(start, 0) == mid;
    assert CanStep(key, mid, 1) && Step(mid, 1) == end;
    hide CanStep, Crossed, Step;
    assert Reaches(key, start, [], start);
    assert [0][..0] == [] && Reaches(key, start, [0], mid);
    assert [0, 1][..1] == [0];
  }

  /** Two operations over tables whose keys are not convex can wait for each other for ever. */
  lemma CrossedKeysDeadlock(key: LockKey, a: nat, b: nat, c: nat)
    requires a < b < c && key(a) == key(c) && key(b) != key(a)
    ensures !DeadlockFree(key)
  {
    CrossedIsReached(key, a, b, c);
    CrossedIsStuck(key, a, b, c);
    assert Starting(Crossed(a, b, c, 0, 0)) && !Finished(Crossed(a, b, c, 1, 1)) by {
      assert !Crossed(a, b, c, 1, 1)[0].committed;
    }
  }

  /**
   * Locking tables in name order keeps any number of concurrent undos and
   * replays from deadlocking exactly when the hash that turns a name into a lock
   * key never gives one key to two tables with a differently keyed one between.
   */
  lemma DeadlockFreeIffConvex(key: LockKey)
    ensures DeadlockFree(key) <==> Convex(key)
  {
    if Convex(key) {
      forall start, schedule, end | Starting(start) && Reaches(key, start, schedule, end) && !Finished(end)
        ensures exists i :: CanStep(key, end, i)
      {
        ReachableIsExclusive(key, start, schedule, end);
        ConvexNeverStuck(key, end);
      }
    } else {
      var a: nat, b: nat, c: nat :| a < b < c && key(a) == key(c) && key(b) != key(a);
      CrossedKeysDeadlock(key, a, b, c);
    }
  }

  function Work(sys: System): nat {
    if sys == [] then 0
    else
      var s := sys[|sys| - 1];
      Work(sys[..|sys| - 1]) + (if s.committed then 0 else 1) + (if s.Waiting() then |s.tables| - s.taken else 0)
  }

  /** Every step leaves one unit less to do, so every run ends with all sessions committed. */
  lemma {:induction false} StepDoesWork(sys: System, i: nat)
    requires i < |sys| && !sys[i].committed
    ensures Work(Step(sys, i)) == Work(sys) - 1
    decreases |sys|
  {
    var n, next := |sys| - 1, Step(sys, i);
    if i < n {
      assert next[..n] == Step(sys[..n], i);
      StepDoesWork(sys[..n], i);
    } else {
      assert next[..n] == sys[..n];
    }
  }
}
