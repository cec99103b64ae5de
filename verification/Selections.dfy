/** Undo of a selection: some rows' changes, or some tables', out of a longer log. */
module Selections {
  import opened Tables
  import opened Capture
  import opened Plan
  import opened Inverse
  import opened Window
  import opened Conflicts
  import opened Exact
  import opened Preview
  import opened Reliable

  // ---- A run depends on the places it writes only --------------------------------------

  /** A place a write takes a row from or puts one at. */
  ghost predicate Spot(cat: Catalog, w: Write, id: RowId) {
    w.Table() in cat && (Target(cat, w) == id || (w.Upd? && w.id == id))
  }

  ghost predicate Within(cat: Catalog, es: seq<Entry>, id: RowId) {
    exists i | 0 <= i < |es| :: Spot(cat, es[i].write, id)
  }

  lemma ExtendsLocally(cat: Catalog, a: Db, b: Db, e: Entry)
    requires Extends(cat, a, e) && forall id | Spot(cat, e.write, id) :: SameRow(a, b, id)
    ensures Extends(cat, b, e)
  {
    assert Spot(cat, e.write, Target(cat, e.write));
    if !e.write.Ins? { assert Spot(cat, e.write, e.write.id); }
  }

  lemma WrittenLocally(cat: Catalog, a: Db, b: Db, w: Write, id: RowId)
    requires w.Table() in cat
    ensures SameRow(a, b, id) || Spot(cat, w, id) ==> SameRow(Written(cat, a, w), Written(cat, b, w), id)
    ensures !Spot(cat, w, id) ==> SameRow(a, Written(cat, a, w), id)
  {
  }

  lemma WithinSnoc(cat: Catalog, es: seq<Entry>, id: RowId)
    requires es != []
    ensures Within(cat, es, id) <==> Within(cat, es[..|es| - 1], id) || Spot(cat, es[|es| - 1].write, id)
  {
    hide Spot;
    var pre := es[..|es| - 1];
    if i :| 0 <= i < |pre| && Spot(cat, pre[i].write, id) { assert es[i] == pre[i]; }
  }

  /** Two tables that agree where a run writes: it can be made on both, and they agree there afterwards. */
  ghost predicate RunsAlike(cat: Catalog, a: Db, b: Db, es: seq<Entry>, id: RowId)
    requires History(cat, a, es) && History(cat, b, es)
  {
    if Within(cat, es, id) then SameRow(End(cat, a, es), End(cat, b, es), id)
    else SameRow(a, End(cat, a, es), id) && SameRow(b, End(cat, b, es), id)
  }

  lemma {:induction false} RunIsLocal(cat: Catalog, a: Db, b: Db, es: seq<Entry>)
    requires History(cat, a, es) && forall id | Within(cat, es, id) :: SameRow(a, b, id)
    ensures History(cat, b, es) && forall id :: RunsAlike(cat, a, b, es, id)
    decreases |es|
  {
    if es != [] {
      hide Written, Extends, Spot, SameRow, Within, RunsAlike;
      var pre, e := es[..|es| - 1], es[|es| - 1];
      forall id | Within(cat, pre, id) ensures SameRow(a, b, id) { WithinSnoc(cat, es, id); }
      RunIsLocal(cat, a, b, pre);
      var x, y := End(cat, a, pre), End(cat, b, pre);
      forall id | Spot(cat, e.write, id)
        ensures SameRow(x, y, id)
      {
        WithinSnoc(cat, es, id);
        assert RunsAlike(cat, a, b, pre, id);
        AlikeAt(cat, a, b, pre, id);
      }
      ExtendsLocally(cat, x, y, e);
      forall id
        ensures RunsAlike(cat, a, b, es, id)
      {
        assert RunsAlike(cat, a, b, pre, id);
        EntryInCatalog(cat, x, e);
        AlikeMore(cat, a, b, es, id);
      }
    }
  }

  lemma AlikeAt(cat: Catalog, a: Db, b: Db, es: seq<Entry>, id: RowId)
    requires History(cat, a, es) && History(cat, b, es) && RunsAlike(cat, a, b, es, id) && SameRow(a, b, id)
    ensures SameRow(End(cat, a, es), End(cat, b, es), id)
  {
    hide Within, History;
  }

  lemma AlikeMore(cat: Catalog, a: Db, b: Db, es: seq<Entry>, id: RowId)
    requires es != [] && History(cat, a, es) && History(cat, b, es) && es[|es| - 1].write.Table() in cat
    requires RunsAlike(cat, a, b, es[..|es| - 1], id) && (Within(cat, es, id) ==> SameRow(a, b, id))
    ensures RunsAlike(cat, a, b, es, id)
  {
    hide Written, Extends, Spot, Within;
    var pre, w := es[..|es| - 1], es[|es| - 1].write;
    WithinSnoc(cat, es, id);
    WrittenLocally(cat, End(cat, a, pre), End(cat, b, pre), w, id);
    WrittenLocally(cat, End(cat, b, pre), End(cat, a, pre), w, id);
  }

  lemma SameMap(a: Db, b: Db)
    requires forall id: RowId :: SameRow(a, b, id)
    ensures a == b
  {
    forall id: RowId ensures (id in a <==> id in b) && (id in a ==> a[id] == b[id]) { assert SameRow(a, b, id); }
    assert a.Keys == b.Keys;
  }

  // ---- Rows each at its own time ------------------------------------------------------

  /** The tables after the first `n` entries of a run, or after all of them. */
  ghost function StateAt(cat: Catalog, start: Db, es: seq<Entry>, n: nat): Db
    requires History(cat, start, es)
    decreases |es|
  {
    if n >= |es| then End(cat, start, es) else StateAt(cat, start, es[..|es| - 1], n)
  }

  ghost function Places(cat: Catalog, es: seq<Entry>): set<RowId> {
    if es == [] then {}
    else
      Places(cat, es[..|es| - 1]) +
      if es[|es| - 1].write.Table() in cat then {Target(cat, es[|es| - 1].write)} else {}
  }

  /** Every row as it stood after the number of entries that `when` gives for it. */
  ghost function Mixed(cat: Catalog, start: Db, es: seq<Entry>, when: RowId -> nat): Db
    requires History(cat, start, es)
  {
    map id | id in start.Keys + Places(cat, es) && id in StateAt(cat, start, es, when(id)) ::
      StateAt(cat, start, es, when(id))[id]
  }

  lemma {:induction false} StateKeys(cat: Catalog, start: Db, es: seq<Entry>, n: nat)
    requires History(cat, start, es)
    ensures StateAt(cat, start, es, n).Keys <= start.Keys + Places(cat, es)
    decreases |es|
  {
    if es != [] {
      StateKeys(cat, start, es[..|es| - 1], n);
      StateKeys(cat, start, es[..|es| - 1], |es| - 1);
      WrittenKeys(cat, End(cat, start, es[..|es| - 1]), es[|es| - 1].write);
    }
  }

  lemma WrittenKeys(cat: Catalog, db: Db, w: Write)
    requires w.Table() in cat
    ensures Written(cat, db, w).Keys <= db.Keys + {Target(cat, w)}
  {
  }

  lemma MixedAt(cat: Catalog, start: Db, es: seq<Entry>, when: RowId -> nat, id: RowId)
    requires History(cat, start, es)
    ensures SameRow(StateAt(cat, start, es, when(id)), Mixed(cat, start, es, when), id)
  {
    StateKeys(cat, start, es, when(id));
  }

  lemma {:induction false} StateIsValid(cat: Catalog, start: Db, es: seq<Entry>, n: nat)
    requires ValidDb(cat, start) && History(cat, start, es)
    ensures ValidDb(cat, StateAt(cat, start, es, n))
    decreases |es|
  {
    if n >= |es| { EndIsValid(cat, start, es); } else { StateIsValid(cat, start, es[..|es| - 1], n); }
  }

  lemma MixedIsValid(cat: Catalog, start: Db, es: seq<Entry>, when: RowId -> nat)
    requires ValidDb(cat, start) && History(cat, start, es)
    ensures ValidDb(cat, Mixed(cat, start, es, when))
  {
    var db := Mixed(cat, start, es, when);
    hide Mixed;
    forall id | id in db
      ensures id.table in cat && cat[id.table].ValidRow(db[id]) && cat[id.table].Key(db[id]) == id.key
    {
      MixedAt(cat, start, es, when, id);
      StateIsValid(cat, start, es, when(id));
    }
  }

  /** One entry more: a place takes the write, if its time is later. */
  lemma MixedSnoc(cat: Catalog, start: Db, es: seq<Entry>, when: RowId -> nat, id: RowId)
    requires es != [] && History(cat, start, es)
    ensures var n, w := |es| - 1, es[|es| - 1].write;
            var before, mid := Mixed(cat, start, es[..n], when), End(cat, start, es[..n]);
            && w.Table() in cat
            && SameRow(if when(id) > n then Written(cat, mid, w) else before, Mixed(cat, start, es, when), id)
            && (when(id) > n ==> SameRow(mid, before, id))
            && (!Spot(cat, w, id) ==> SameRow(before, Mixed(cat, start, es, when), id))
  {
    hide Mixed, Written, Spot, Extends;
    EntryInCatalog(cat, End(cat, start, es[..|es| - 1]), es[|es| - 1]);
    MixedAt(cat, start, es, when, id);
    MixedAt(cat, start, es[..|es| - 1], when, id);
    StateSnoc(cat, start, es, when(id));
    var mid := End(cat, start, es[..|es| - 1]);
    WrittenLocally(cat, mid, mid, es[|es| - 1].write, id);
  }

  lemma StateSnoc(cat: Catalog, start: Db, es: seq<Entry>, n: nat)
    requires es != [] && History(cat, start, es)
    ensures var pre := es[..|es| - 1];
            StateAt(cat, start, es, n) ==
              if n >= |es| then Written(cat, End(cat, start, pre), es[|es| - 1].write) else StateAt(cat, start, pre, n)
    ensures n >= |es| ==> StateAt(cat, start, es[..|es| - 1], n) == End(cat, start, es[..|es| - 1])
  {
  }

  // ---- Slices ------------------------------------------------------------------------

  /** The entries of each row between two times of its own. */
  ghost function Slice(cat: Catalog, es: seq<Entry>, from: RowId -> nat, upto: RowId -> nat): seq<Entry> {
    if es == [] then []
    else
      var n := |es| - 1;
      var rest := Slice(cat, es[..n], from, upto);
      if es[n].write.Table() in cat && from(Target(cat, es[n].write)) <= n < upto(Target(cat, es[n].write))
      then rest + [es[n]] else rest
  }

  /** Each write is in or out of the slice at both its places. */
  ghost predicate Aligned(cat: Catalog, es: seq<Entry>, from: RowId -> nat, upto: RowId -> nat) {
    forall i, id | 0 <= i < |es| && Spot(cat, es[i].write, id) ::
      from(id) <= i < upto(id) <==> from(Target(cat, es[i].write)) <= i < upto(Target(cat, es[i].write))
  }

  lemma AlignedSnoc(cat: Catalog, es: seq<Entry>, from: RowId -> nat, upto: RowId -> nat)
    requires es != [] && Aligned(cat, es, from, upto)
    ensures Aligned(cat, es[..|es| - 1], from, upto)
    ensures var n, w := |es| - 1, es[|es| - 1].write;
            forall id | Spot(cat, w, id) :: from(id) <= n < upto(id) <==> from(Target(cat, w)) <= n < upto(Target(cat, w))
  {
    hide Spot;
    assert forall i | 0 <= i < |es| - 1 :: es[..|es| - 1][i] == es[i];
  }

  /** A slice writes to places whose time has come only. */
  lemma {:induction false} SliceBefore(cat: Catalog, es: seq<Entry>, from: RowId -> nat, upto: RowId -> nat, id: RowId)
    requires Aligned(cat, es, from, upto) && Within(cat, Slice(cat, es, from, upto), id)
    ensures from(id) < |es|
    decreases |es|
  {
    hide Spot, Within, Aligned;
    if es == [] {
      NothingWithin(cat, id);
    } else {
      var n := |es| - 1;
      var rest, all := Slice(cat, es[..n], from, upto), Slice(cat, es, from, upto);
      AlignedSnoc(cat, es, from, upto);
      if all != rest {
        assert all[..|all| - 1] == rest;
        WithinSnoc(cat, all, id);
      }
      if Within(cat, rest, id) { SliceBefore(cat, es[..n], from, upto, id); }
    }
  }

  lemma NothingWithin(cat: Catalog, id: RowId)
    ensures !Within(cat, [], id)
  {
  }

  ghost predicate SliceRuns(cat: Catalog, start: Db, es: seq<Entry>, from: RowId -> nat, upto: RowId -> nat)
    requires History(cat, start, es)
  {
    var base, part := Mixed(cat, start, es, from), Slice(cat, es, from, upto);
    History(cat, base, part) && End(cat, base, part) == Mixed(cat, start, es, upto)
  }

  /** One entry more: the slice so far can still be made, from the places as they now begin. */
  lemma SliceStill(cat: Catalog, start: Db, es: seq<Entry>, from: RowId -> nat, upto: RowId -> nat)
    requires es != [] && History(cat, start, es) && Aligned(cat, es, from, upto)
    requires SliceRuns(cat, start, es[..|es| - 1], from, upto)
    ensures var part, base := Slice(cat, es[..|es| - 1], from, upto), Mixed(cat, start, es, from);
            var before := Mixed(cat, start, es[..|es| - 1], from);
            History(cat, base, part) && forall id: RowId :: RunsAlike(cat, before, base, part, id)
  {
    hide Mixed, Written, Spot, Within, SameRow, RunsAlike, Aligned, Slice;
    var pre := es[..|es| - 1];
    var part, base := Slice(cat, pre, from, upto), Mixed(cat, start, es, from);
    AlignedSnoc(cat, es, from, upto);
    forall id | Within(cat, part, id)
      ensures SameRow(Mixed(cat, start, pre, from), base, id)
    {
      SliceBefore(cat, pre, from, upto, id);
      MixedSnoc(cat, start, es, from, id);
    }
    RunIsLocal(cat, Mixed(cat, start, pre, from), base, part);
  }

  /** An entry out of the slice changes how its places begin and end alike. */
  lemma SliceSkips(cat: Catalog, start: Db, es: seq<Entry>, from: RowId -> nat, upto: RowId -> nat)
    requires es != [] && History(cat, start, es) && Aligned(cat, es, from, upto) && forall id :: from(id) <= upto(id)
    requires SliceRuns(cat, start, es[..|es| - 1], from, upto) && Slice(cat, es, from, upto) == Slice(cat, es[..|es| - 1], from, upto)
    requires var n, t := |es| - 1, Target(cat, es[|es| - 1].write);
             es[n].write.Table() in cat && !(from(t) <= n < upto(t))
    ensures SliceRuns(cat, start, es, from, upto)
  {
    SliceStill(cat, start, es, from, upto);
    var pre, n := es[..|es| - 1], |es| - 1;
    var part, base, before := Slice(cat, pre, from, upto), Mixed(cat, start, es, from), Mixed(cat, start, pre, from);
    AlignedSnoc(cat, es, from, upto);
    hide Mixed, Written, Spot, Within, Aligned, Slice, History;
    forall id
      ensures SameRow(End(cat, base, part), Mixed(cat, start, es, upto), id)
    {
      assert RunsAlike(cat, before, base, part, id);
      MixedSnoc(cat, start, es, from, id);
      MixedSnoc(cat, start, es, upto, id);
      if Within(cat, part, id) { SliceBefore(cat, pre, from, upto, id); }
    }
    SameMap(End(cat, base, part), Mixed(cat, start, es, upto));
  }

  /** An entry in the slice of its places: it is the newest of them. */
  lemma SliceGrows(cat: Catalog, start: Db, es: seq<Entry>, from: RowId -> nat, upto: RowId -> nat)
    requires es != [] && History(cat, start, es) && Aligned(cat, es, from, upto)
    requires SliceRuns(cat, start, es[..|es| - 1], from, upto)
    requires Slice(cat, es, from, upto) == Slice(cat, es[..|es| - 1], from, upto) + [es[|es| - 1]]
    requires var n, t := |es| - 1, Target(cat, es[|es| - 1].write);
             es[n].write.Table() in cat && from(t) <= n < upto(t)
    ensures SliceRuns(cat, start, es, from, upto)
  {
    var pre, n, e := es[..|es| - 1], |es| - 1, es[|es| - 1];
    var part, base, mid := Slice(cat, pre, from, upto), Mixed(cat, start, es, from), End(cat, start, pre);
    AlignedSnoc(cat, es, from, upto);
    assert Extends(cat, mid, e);
    hide Mixed, Written, Spot, Within, Aligned, Slice, Extends, History;
    forall id ensures SameRow(Mixed(cat, start, pre, from), base, id) { MixedSnoc(cat, start, es, from, id); }
    SameMap(Mixed(cat, start, pre, from), base);
    var end := End(cat, base, part);
    forall id | Spot(cat, e.write, id) ensures SameRow(mid, end, id) { MixedSnoc(cat, start, es, upto, id); }
    ExtendsLocally(cat, mid, end, e);
    HistorySnoc(cat, base, part, e);
    forall id
      ensures SameRow(Written(cat, end, e.write), Mixed(cat, start, es, upto), id)
    {
      MixedSnoc(cat, start, es, upto, id);
      WrittenLocally(cat, mid, end, e.write, id);
      WrittenLocally(cat, end, mid, e.write, id);
    }
    SameMap(Written(cat, end, e.write), Mixed(cat, start, es, upto));
  }

  lemma NothingSliced(cat: Catalog, start: Db, from: RowId -> nat, upto: RowId -> nat)
    ensures SliceRuns(cat, start, [], from, upto)
  {
    assert Mixed(cat, start, [], from) == Mixed(cat, start, [], upto) == start;
  }

  /** Each place's entries between two times are a run from the first to the second. */
  lemma {:induction false} SliceIsHistory(cat: Catalog, start: Db, es: seq<Entry>, from: RowId -> nat, upto: RowId -> nat)
    requires History(cat, start, es) && Aligned(cat, es, from, upto) && forall id :: from(id) <= upto(id)
    ensures SliceRuns(cat, start, es, from, upto)
    decreases |es|
  {
    if es == [] {
      NothingSliced(cat, start, from, upto);
    } else {
      hide SliceRuns, Extends, Mixed, Aligned;
      var n := |es| - 1;
      EntryInCatalog(cat, End(cat, start, es[..n]), es[n]);
      AlignedSnoc(cat, es, from, upto);
      SliceIsHistory(cat, start, es[..n], from, upto);
      var t := Target(cat, es[n].write);
      if from(t) <= n < upto(t) {
        SliceGrows(cat, start, es, from, upto);
      } else {
        SliceSkips(cat, start, es, from, upto);
      }
    }
  }

  lemma EntryInCatalog(cat: Catalog, db: Db, e: Entry)
    requires Extends(cat, db, e)
    ensures e.write.Table() in cat
  {
  }

  // ---- Selections of changes ------------------------------------------------------------

  ghost predicate Picked(cat: Catalog, e: Entry, sel: Change -> bool, id: RowId) {
    e.change.Some? && sel(e.change.value) && Spot(cat, e.write, id)
  }

  /** Before the first selected change of a row, and after its last; 0 and 0 if there is none. */
  ghost function FirstPick(cat: Catalog, es: seq<Entry>, sel: Change -> bool, id: RowId): nat {
    if es == [] || LastPick(cat, es, sel, id) == 0 then 0
    else if LastPick(cat, es[..|es| - 1], sel, id) > 0 then FirstPick(cat, es[..|es| - 1], sel, id)
    else |es| - 1
  }

  ghost function LastPick(cat: Catalog, es: seq<Entry>, sel: Change -> bool, id: RowId): nat {
    if es == [] then 0
    else if Picked(cat, es[|es| - 1], sel, id) then |es| else LastPick(cat, es[..|es| - 1], sel, id)
  }

  lemma {:induction false} PicksBound(cat: Catalog, es: seq<Entry>, sel: Change -> bool, id: RowId)
    ensures var f, l := FirstPick(cat, es, sel, id), LastPick(cat, es, sel, id);
      && f <= l <= |es|
      && (l > 0 ==> f < l && Picked(cat, es[f], sel, id) && Picked(cat, es[l - 1], sel, id))
      && forall i | 0 <= i < |es| && Picked(cat, es[i], sel, id) :: f <= i < l
    decreases |es|
  {
    hide Picked;
    if es != [] {
      var pre := es[..|es| - 1];
      PicksBound(cat, pre, sel, id);
      var f, l := FirstPick(cat, es, sel, id), LastPick(cat, es, sel, id);
      if LastPick(cat, pre, sel, id) > 0 {
        assert pre[FirstPick(cat, pre, sel, id)] == es[FirstPick(cat, pre, sel, id)];
        assert pre[LastPick(cat, pre, sel, id) - 1] == es[LastPick(cat, pre, sel, id) - 1];
      }
      forall i | 0 <= i < |es| && Picked(cat, es[i], sel, id)
        ensures f <= i < l
      {
        if i < |pre| { assert Picked(cat, pre[i], sel, id); }
      }
    }
  }

  /** Of the changes about each place, the selected ones have no unselected one between them. */
  ghost predicate Contiguous(cat: Catalog, es: seq<Entry>, sel: Change -> bool) {
    forall i, j, k, id | 0 <= i < j < k < |es| && Concerns(cat, es[i], id) && Concerns(cat, es[j], id) && Concerns(cat, es[k], id) ::
      sel(es[i].change.value) && sel(es[k].change.value) ==> sel(es[j].change.value)
  }

  /** The run that a selection of this one is, the tables it began with, and those it left. */
  ghost function Part(cat: Catalog, es: seq<Entry>, sel: Change -> bool): seq<Entry> {
    Slice(cat, es, id => FirstPick(cat, es, sel, id), id => LastPick(cat, es, sel, id))
  }

  ghost function Base(cat: Catalog, start: Db, es: seq<Entry>, sel: Change -> bool): Db
    requires History(cat, start, es)
  {
    Mixed(cat, start, es, id => FirstPick(cat, es, sel, id))
  }

  ghost function Left(cat: Catalog, start: Db, es: seq<Entry>, sel: Change -> bool): Db
    requires History(cat, start, es)
  {
    Mixed(cat, start, es, id => LastPick(cat, es, sel, id))
  }

  lemma {:induction false} SliceLog(cat: Catalog, es: seq<Entry>, from: RowId -> nat, upto: RowId -> nat, sel: Change -> bool)
    requires forall i | 0 <= i < |es| ::
      es[i].write.Table() in cat &&
      (es[i].change.Some? ==>
        (sel(es[i].change.value) <==> from(Target(cat, es[i].write)) <= i < upto(Target(cat, es[i].write))))
    ensures Log(Slice(cat, es, from, upto)) == Selected(Log(es), sel)
    decreases |es|
  {
    hide Target;
    if es != [] {
      var n := |es| - 1;
      var rest := Slice(cat, es[..n], from, upto);
      SliceLog(cat, es[..n], from, upto, sel);
      assert (rest + [es[n]])[..|rest|] == rest;
      if es[n].change.Some? {
        var log := Log(es);
        assert log[..|log| - 1] == Log(es[..n]) && log[|log| - 1] == es[n].change.value;
      } else {
        assert Log(es) == Log(es[..n]);
        assert Log(rest) + [] == Log(rest);
      }
    }
  }

  lemma {:induction false} AllInCatalog(cat: Catalog, start: Db, es: seq<Entry>)
    requires History(cat, start, es)
    ensures forall i | 0 <= i < |es| :: es[i].write.Table() in cat
    decreases |es|
  {
    if es != [] {
      AllInCatalog(cat, start, es[..|es| - 1]);
      EntryInCatalog(cat, End(cat, start, es[..|es| - 1]), es[|es| - 1]);
    }
  }

  lemma PickedInSlice(cat: Catalog, es: seq<Entry>, sel: Change -> bool, i: nat, id: RowId)
    requires Contiguous(cat, es, sel) && i < |es| && es[i].change.Some? && Spot(cat, es[i].write, id)
    ensures sel(es[i].change.value) <==> FirstPick(cat, es, sel, id) <= i < LastPick(cat, es, sel, id)
  {
    PicksBound(cat, es, sel, id);
    hide FirstPick, LastPick;
    var f, l := FirstPick(cat, es, sel, id), LastPick(cat, es, sel, id);
    if f <= i < l {
      assert Concerns(cat, es[f], id) && Concerns(cat, es[i], id) && Concerns(cat, es[l - 1], id);
    }
  }

  lemma SelectionIsAligned(cat: Catalog, start: Db, es: seq<Entry>, sel: Change -> bool)
    requires ValidDb(cat, start) && History(cat, start, es) && Contiguous(cat, es, sel)
    ensures Aligned(cat, es, id => FirstPick(cat, es, sel, id), id => LastPick(cat, es, sel, id))
  {
    hide FirstPick, LastPick, Contiguous, ValidDb, History;
    forall i: nat, id: RowId | i < |es| && Spot(cat, es[i].write, id)
      ensures var t := Target(cat, es[i].write);
        FirstPick(cat, es, sel, id) <= i < LastPick(cat, es, sel, id) <==>
        FirstPick(cat, es, sel, t) <= i < LastPick(cat, es, sel, t)
    {
      if es[i].change.Some? {
        PickedInSlice(cat, es, sel, i, id);
        PickedInSlice(cat, es, sel, i, Target(cat, es[i].write));
      } else {
        UnrecordedInPlace(cat, start, es, i);
      }
    }
  }

  /** An update that went unrecorded moved nothing. */
  lemma {:induction false} UnrecordedInPlace(cat: Catalog, start: Db, es: seq<Entry>, i: nat)
    requires ValidDb(cat, start) && History(cat, start, es) && i < |es| && es[i].change.None?
    ensures es[i].write.Table() in cat && KeepsKey(cat, es[i].write)
    decreases |es|
  {
    hide ValidDb, Written;
    var mid := LastEntry(cat, start, es);
    var n := |es| - 1;
    if i < n { UnrecordedInPlace(cat, start, es[..n], i); } else { UnrecordedKeeps(cat, mid, es[n]); }
  }

  lemma UnrecordedKeeps(cat: Catalog, db: Db, e: Entry)
    requires ValidDb(cat, db) && Extends(cat, db, e) && e.change.None?
    ensures e.write.Table() in cat && KeepsKey(cat, e.write)
  {
  }

  /**
   * A selection of a run's changes, contiguous place by place, is a run of its own: from
   * the tables with every place as it stood before the first selected change about it to
   * those with every place as the last one left it.  The changes of one transaction are
   * such a selection, since it keeps others off the rows it wrote.
   */
  lemma SelectionIsHistory(cat: Catalog, start: Db, es: seq<Entry>, sel: Change -> bool)
    requires ValidDb(cat, start) && History(cat, start, es) && Contiguous(cat, es, sel)
    ensures var base, part := Base(cat, start, es, sel), Part(cat, es, sel);
      && ValidDb(cat, base) && History(cat, base, part)
      && Log(part) == Selected(Log(es), sel) && End(cat, base, part) == Left(cat, start, es, sel)
  {
    hide FirstPick, LastPick, Mixed, Slice, ValidDb, Contiguous, Aligned;
    var from: RowId -> nat := id => FirstPick(cat, es, sel, id);
    var upto: RowId -> nat := id => LastPick(cat, es, sel, id);
    forall id ensures from(id) <= upto(id) { PicksBound(cat, es, sel, id); }
    MixedIsValid(cat, start, es, from);
    SelectionIsAligned(cat, start, es, sel);
    SliceIsHistory(cat, start, es, from, upto);
    AllInCatalog(cat, start, es);
    forall i | 0 <= i < |es| && es[i].change.Some?
      ensures sel(es[i].change.value) <==> from(Target(cat, es[i].write)) <= i < upto(Target(cat, es[i].write))
    {
      PickedInSlice(cat, es, sel, i, Target(cat, es[i].write));
    }
    SliceLog(cat, es, from, upto, sel);
  }

  /** Undo of a selection goes through exactly when each of its rows is as its last selected change left it. */
  lemma SelectionSucceedsIff(cat: Catalog, start: Db, es: seq<Entry>, sel: Change -> bool, now: Db)
    requires ValidDb(cat, start) && History(cat, start, es) && Contiguous(cat, es, sel)
    requires ValidDb(cat, now)
    ensures Undo(cat, now, Selected(Log(es), sel), false).Done? <==>
            forall id :: Matches(cat, now, Left(cat, start, es, sel), Selected(Log(es), sel), id)
  {
    hide Base, Left, Part, Undo, Matches, ValidDb, History, Contiguous, Log, Selected;
    SelectionIsHistory(cat, start, es, sel);
    UndoSucceedsByLog(cat, Base(cat, start, es, sel), Part(cat, es, sel), now);
  }

  /** And it is exact: cells the selected changes wrote, and no others, go back to before the first of them. */
  lemma SelectionIsExact(cat: Catalog, start: Db, es: seq<Entry>, sel: Change -> bool, now: Db, id: RowId, k: string)
    requires ValidDb(cat, start) && History(cat, start, es) && Contiguous(cat, es, sel)
    requires ValidDb(cat, now) && FlatLog(Selected(Log(es), sel)) && StoredCell(cat, id, k)
    ensures var base, part := Base(cat, start, es, sel), Part(cat, es, sel);
            var o := Undo(cat, now, Selected(Log(es), sel), false);
            History(cat, base, part) && (o.Done? ==> UndoneCell(cat, base, part, now, o.db, id, k))
  {
    hide Base, Left, Part, Undo, UndoneCell, ValidDb, History, Contiguous, Log, Selected, FlatLog, StoredCell;
    SelectionIsHistory(cat, start, es, sel);
    WindowedUndoIsExact(cat, Base(cat, start, es, sel), Part(cat, es, sel), now, id, k);
  }

  /** A clear preview of a selection can be relied on under the condition for runs, and so can a flag. */
  lemma SelectionPreviewReliableIff(cat: Catalog, start: Db, es: seq<Entry>, sel: Change -> bool)
    requires ValidDb(cat, start) && History(cat, start, es) && Contiguous(cat, es, sel)
    ensures var picked := Selected(Log(es), sel);
            (forall now | ValidDb(cat, now) && Clear(cat, now, Reverse(picked)) :: Undo(cat, now, picked, false).Done?) <==>
            NoneAbandoned(cat, picked) && NewestTellsAll(cat, picked)
    ensures var picked := Selected(Log(es), sel);
            (forall now | ValidDb(cat, now) && Undo(cat, now, picked, false).Done? :: Clear(cat, now, Reverse(picked))) <==>
            ProbedStay(cat, picked)
  {
    hide Base, Left, Part, Undo, Clear, ValidDb, History, Contiguous, Log, Selected, NewestTellsAll, Reverse,
      NoneAbandoned, ProbedStay;
    SelectionIsHistory(cat, start, es, sel);
    var base, part := Base(cat, start, es, sel), Part(cat, es, sel);
    PreviewReliableIff(cat, base, part);
    FlagsAreRefusalsIff(cat, base, part);
  }

  /** What `undo` itself returns for a selection, under its cap. */
  lemma RunSucceedsIff(cat: Catalog, start: Db, es: seq<Entry>, sel: Change -> bool, now: Db, cap: int)
    requires ValidDb(cat, start) && History(cat, start, es) && Contiguous(cat, es, sel)
    requires ValidDb(cat, now)
    ensures var picked := Selected(Log(es), sel);
            RunCapped(cat, now, Reverse(picked), false, false, cap).Done? <==>
            |picked| <= cap && forall id :: Matches(cat, now, Left(cat, start, es, sel), picked, id)
  {
    hide Base, Left, Part, Matches, ValidDb, History, Contiguous, Log, Selected;
    SelectionSucceedsIff(cat, start, es, sel, now);
    SelectionIsHistory(cat, start, es, sel);
    UndoInvertsHistory(cat, Base(cat, start, es, sel), Part(cat, es, sel), false);
  }

  // ---- All changes of some rows ----------------------------------------------------------

  ghost predicate ByRow(sel: Change -> bool) {
    forall c, d | RowOf(c) == RowOf(d) :: sel(c) == sel(d)
  }

  lemma {:induction false} StateOfPrefix(cat: Catalog, start: Db, es: seq<Entry>, n: nat)
    requires History(cat, start, es) && n <= |es|
    ensures History(cat, start, es[..n]) && StateAt(cat, start, es, n) == End(cat, start, es[..n])
    decreases |es|
  {
    if n == |es| {
      assert es[..n] == es;
    } else {
      StateOfPrefix(cat, start, es[..|es| - 1], n);
      assert es[..|es| - 1][..n] == es[..n];
    }
  }

  /** A place with no recorded change about it in a stretch of a run is the same at both its ends. */
  lemma {:induction false} RowStays(cat: Catalog, start: Db, es: seq<Entry>, n: nat, id: RowId)
    requires ValidDb(cat, start) && History(cat, start, es) && n <= |es|
    requires forall i | n <= i < |es| :: !Concerns(cat, es[i], id)
    ensures SameRow(StateAt(cat, start, es, n), End(cat, start, es), id)
    decreases |es|
  {
    if n < |es| {
      hide ValidDb, Recorded, Legal, Written;
      var mid := LastEntry(cat, start, es);
      var pre, e := es[..|es| - 1], es[|es| - 1];
      RowStays(cat, start, pre, n, id);
      assert !Concerns(cat, e, id);
      if e.change.Some? { WrittenLocally(cat, mid, mid, e.write, id); }
    }
  }

  lemma {:induction false} RecordedRows(cat: Catalog, start: Db, es: seq<Entry>)
    requires History(cat, start, es)
    ensures forall i | 0 <= i < |es| && es[i].change.Some? ::
      es[i].write.Table() in cat && RowOf(es[i].change.value) == Target(cat, es[i].write)
    decreases |es|
  {
    if es != [] {
      var n := |es| - 1;
      RecordedRows(cat, start, es[..n]);
      if es[n].change.Some? { FaithfulOp(cat, End(cat, start, es[..n]), es[n].write, es[n].change.value); }
    }
  }

  /** Of the rows selected, none was moved to another key or put where it is by a move. */
  ghost predicate PickedStay(cat: Catalog, es: seq<Entry>, sel: Change -> bool) {
    forall i, j, id | 0 <= i < |es| && 0 <= j < |es| && Concerns(cat, es[i], id) && Concerns(cat, es[j], id) &&
                      sel(es[i].change.value) :: KeepsKey(cat, es[j].write)
  }

  /**
   * Selecting all changes of some rows that kept their keys is contiguous, begins where
   * the whole run began and leaves those rows as the whole run did.
   */
  lemma WholeRows(cat: Catalog, start: Db, es: seq<Entry>, sel: Change -> bool)
    requires ValidDb(cat, start) && History(cat, start, es) && ByRow(sel) && PickedStay(cat, es, sel)
    ensures Contiguous(cat, es, sel)
    ensures forall id | LastPick(cat, es, sel, id) > 0 ::
      SameRow(start, Base(cat, start, es, sel), id) && SameRow(End(cat, start, es), Left(cat, start, es, sel), id)
  {
    RecordedRows(cat, start, es);
    hide Mixed, ValidDb, History, Target, FirstPick, LastPick;
    forall id | LastPick(cat, es, sel, id) > 0
      ensures SameRow(start, Base(cat, start, es, sel), id) && SameRow(End(cat, start, es), Left(cat, start, es, sel), id)
    {
      WholeRow(cat, start, es, sel, id);
    }
    forall i, j, k, id | 0 <= i < j < k < |es| && Concerns(cat, es[i], id) && Concerns(cat, es[j], id) && Concerns(cat, es[k], id) &&
                         sel(es[i].change.value)
      ensures sel(es[j].change.value)
    {
      assert KeepsKey(cat, es[i].write) && KeepsKey(cat, es[j].write);
    }
  }

  lemma WholeRow(cat: Catalog, start: Db, es: seq<Entry>, sel: Change -> bool, id: RowId)
    requires ValidDb(cat, start) && History(cat, start, es) && ByRow(sel) && PickedStay(cat, es, sel)
    requires forall i | 0 <= i < |es| && es[i].change.Some? ::
      es[i].write.Table() in cat && RowOf(es[i].change.value) == Target(cat, es[i].write)
    requires LastPick(cat, es, sel, id) > 0
    ensures SameRow(start, Base(cat, start, es, sel), id) && SameRow(End(cat, start, es), Left(cat, start, es, sel), id)
  {
    PicksBound(cat, es, sel, id);
    hide FirstPick, LastPick, Mixed, ValidDb, History, Target;
    var f, l := FirstPick(cat, es, sel, id), LastPick(cat, es, sel, id);
    forall i | 0 <= i < |es| && Concerns(cat, es[i], id)
      ensures f <= i < l
    {
      assert Concerns(cat, es[f], id) && KeepsKey(cat, es[f].write) && KeepsKey(cat, es[i].write);
      assert Picked(cat, es[i], sel, id);
    }
    hide Picked, PickedStay, ByRow;
    MixedAt(cat, start, es, x => FirstPick(cat, es, sel, x), id);
    MixedAt(cat, start, es, x => LastPick(cat, es, sel, x), id);
    RowStays(cat, start, es, l, id);
    StateOfPrefix(cat, start, es, f);
    RowStays(cat, start, es[..f], 0, id);
    StateOfPrefix(cat, start, es[..f], 0);
    assert es[..f][..0] == [];
    StartOf(cat, start);
  }

  lemma StartOf(cat: Catalog, start: Db)
    ensures History(cat, start, []) && End(cat, start, []) == start
  {
  }

  // ---- All changes of some tables, key changes included -----------------------------------

  ghost function OfTables(es: seq<Entry>, keep: string -> bool): seq<Entry> {
    if es == [] then []
    else
      var n := |es| - 1;
      OfTables(es[..n], keep) + if keep(es[n].write.Table()) then [es[n]] else []
  }

  /** The selection of the changes of some tables. */
  ghost function InTables(keep: string -> bool): Change -> bool {
    (c: Change) => keep(c.table)
  }

  ghost predicate SameTables(a: Db, b: Db, keep: string -> bool) {
    forall id: RowId | keep(id.table) :: SameRow(a, b, id)
  }

  lemma ExtendsInTables(cat: Catalog, a: Db, b: Db, e: Entry, keep: string -> bool)
    requires SameTables(a, b, keep) && Extends(cat, a, e)
    ensures e.write.Table() in cat
    ensures keep(e.write.Table()) ==> Extends(cat, b, e) && SameTables(Written(cat, a, e.write), Written(cat, b, e.write), keep)
    ensures !keep(e.write.Table()) ==> SameTables(Written(cat, a, e.write), b, keep)
    ensures forall id: RowId | id.table != e.write.Table() :: SameRow(b, Written(cat, b, e.write), id)
  {
    var w := e.write;
    assert e.write.Table() in cat;
    if keep(w.Table()) {
      assert w.Upd? || w.Del? ==> SameRow(a, b, w.id);
      assert !w.Del? ==> SameRow(a, b, Target(cat, w));
    }
  }

  ghost predicate Untouched(a: Db, b: Db, keep: string -> bool) {
    forall id: RowId | !keep(id.table) :: SameRow(a, b, id)
  }

  ghost predicate TablesRun(cat: Catalog, start: Db, es: seq<Entry>, keep: string -> bool)
    requires History(cat, start, es)
  {
    var part := OfTables(es, keep);
    && History(cat, start, part) && SameTables(End(cat, start, es), End(cat, start, part), keep)
    && Untouched(start, End(cat, start, part), keep)
    && Log(part) == Selected(Log(es), InTables(keep))
  }

  lemma UntouchedStill(cat: Catalog, a: Db, b: Db, e: Entry, keep: string -> bool)
    requires Untouched(a, b, keep) && keep(e.write.Table()) && e.write.Table() in cat
    requires forall id: RowId | id.table != e.write.Table() :: SameRow(b, Written(cat, b, e.write), id)
    ensures Untouched(a, Written(cat, b, e.write), keep)
  {
    hide Written;
  }

  lemma TablesStep(cat: Catalog, start: Db, pre: seq<Entry>, e: Entry, keep: string -> bool)
    requires History(cat, start, pre) && History(cat, start, pre + [e]) && TablesRun(cat, start, pre, keep)
    requires Extends(cat, End(cat, start, pre), e) && End(cat, start, pre + [e]) == Written(cat, End(cat, start, pre), e.write)
    requires Log(pre + [e]) == Log(pre) + if e.change.Some? then [e.change.value] else []
    ensures TablesRun(cat, start, pre + [e], keep)
  {
    hide Extends, Written, History, End, Log, Selected, SameTables, Untouched, InTables;
    assert (pre + [e])[..|pre|] == pre;
    var mid, part := End(cat, start, pre), OfTables(pre, keep);
    ExtendsInTables(cat, mid, End(cat, start, part), e, keep);
    ChangeTable(cat, mid, e);
    SelectedSnoc(Log(pre), e, InTables(keep));
    InTablesIs(keep, e);
    if keep(e.write.Table()) {
      HistorySnoc(cat, start, part, e);
      UntouchedStill(cat, start, End(cat, start, part), e, keep);
    } else {
      assert OfTables(pre + [e], keep) == part;
    }
  }

  lemma InTablesIs(keep: string -> bool, e: Entry)
    ensures e.change.Some? ==> InTables(keep)(e.change.value) == keep(e.change.value.table)
  {
  }

  /** The changes of some tables are a run of their own, key changes and all. */
  lemma {:induction false} TablesAreHistory(cat: Catalog, start: Db, es: seq<Entry>, keep: string -> bool)
    requires History(cat, start, es)
    ensures TablesRun(cat, start, es, keep)
    decreases |es|
  {
    if es != [] {
      hide Extends, Written, TablesRun;
      var pre, e := es[..|es| - 1], es[|es| - 1];
      assert es == pre + [e];
      TablesAreHistory(cat, start, pre, keep);
      TablesStep(cat, start, pre, e, keep);
    }
  }

  lemma ChangeTable(cat: Catalog, db: Db, e: Entry)
    requires Extends(cat, db, e)
    ensures e.change.Some? ==> e.change.value.table == e.write.Table()
  {
  }

  lemma SelectedSnoc(log: seq<Change>, e: Entry, sel: Change -> bool)
    ensures var more := if e.change.Some? then [e.change.value] else [];
            Selected(log + more, sel) == Selected(log, sel) + if e.change.Some? && sel(e.change.value) then more else []
  {
    if e.change.Some? {
      assert (log + [e.change.value])[..|log|] == log;
    } else {
      assert log + [] == log;
    }
  }

  /** Undo of the changes of some tables goes through exactly when those tables are as the run left them there. */
  lemma TablesSucceedIff(cat: Catalog, start: Db, es: seq<Entry>, keep: string -> bool, now: Db)
    requires ValidDb(cat, start) && ValidDb(cat, now) && History(cat, start, es)
    ensures Undo(cat, now, Selected(Log(es), InTables(keep)), false).Done? <==>
            forall id: RowId | keep(id.table) :: AsLeft(cat, now, End(cat, start, es), OfTables(es, keep), id)
  {
    hide Undo, ValidDb, History, Log, Selected, OfTables, AsLeft;
    var part := OfTables(es, keep);
    TablesAreHistory(cat, start, es, keep);
    UndoSucceedsIff(cat, start, part, now);
    if forall id: RowId | keep(id.table) :: AsLeft(cat, now, End(cat, start, es), part, id) {
      forall id: RowId
        ensures AsLeft(cat, now, End(cat, start, part), part, id)
      {
        TablesAsLeft(cat, start, es, keep, now, id);
      }
    } else {
      var id: RowId :| keep(id.table) && !AsLeft(cat, now, End(cat, start, es), part, id);
      TablesAsLeft(cat, start, es, keep, now, id);
    }
  }

  lemma TablesAsLeft(cat: Catalog, start: Db, es: seq<Entry>, keep: string -> bool, now: Db, id: RowId)
    requires History(cat, start, es) && TablesRun(cat, start, es, keep)
    ensures var part := OfTables(es, keep);
      && (keep(id.table) ==>
           (AsLeft(cat, now, End(cat, start, es), part, id) <==> AsLeft(cat, now, End(cat, start, part), part, id)))
      && (!keep(id.table) ==> AsLeft(cat, now, End(cat, start, part), part, id))
  {
    hide History, Covers, Checked, Log, Selected, OfTables, Concerned;
    var part := OfTables(es, keep);
    if keep(id.table) {
      assert SameRow(End(cat, start, es), End(cat, start, part), id);
    } else {
      TableUnconcerned(cat, es, keep, id);
    }
  }

  lemma {:induction false} TableUnconcerned(cat: Catalog, es: seq<Entry>, keep: string -> bool, id: RowId)
    requires !keep(id.table)
    ensures !Concerned(cat, OfTables(es, keep), id)
    decreases |es|
  {
    if es != [] {
      var n := |es| - 1;
      TableUnconcerned(cat, es[..n], keep, id);
      ConcernedSnoc(cat, OfTables(es[..n], keep), es[n], id);
      assert OfTables(es[..n], keep) + [] == OfTables(es[..n], keep);
    }
  }

  lemma TablesAreExact(cat: Catalog, start: Db, es: seq<Entry>, keep: string -> bool, now: Db, id: RowId, k: string)
    requires ValidDb(cat, start) && ValidDb(cat, now) && History(cat, start, es)
    requires FlatLog(Selected(Log(es), InTables(keep))) && StoredCell(cat, id, k)
    ensures var part := OfTables(es, keep);
            var o := Undo(cat, now, Selected(Log(es), InTables(keep)), false);
            History(cat, start, part) && (o.Done? ==> UndoneCell(cat, start, part, now, o.db, id, k))
  {
    hide Undo, UndoneCell, ValidDb, History, Log, Selected, FlatLog, StoredCell, OfTables;
    TablesAreHistory(cat, start, es, keep);
    WindowedUndoIsExact(cat, start, OfTables(es, keep), now, id, k);
  }

  /** And its preview can be relied on, flags and all, under the conditions for runs. */
  lemma TablesPreviewReliableIff(cat: Catalog, start: Db, es: seq<Entry>, keep: string -> bool)
    requires ValidDb(cat, start) && History(cat, start, es)
    ensures var picked := Selected(Log(es), InTables(keep));
            (forall now | ValidDb(cat, now) && Clear(cat, now, Reverse(picked)) :: Undo(cat, now, picked, false).Done?) <==>
            NoneAbandoned(cat, picked) && NewestTellsAll(cat, picked)
    ensures var picked := Selected(Log(es), InTables(keep));
            (forall now | ValidDb(cat, now) && Undo(cat, now, picked, false).Done? :: Clear(cat, now, Reverse(picked))) <==>
            ProbedStay(cat, picked)
  {
    hide Undo, Clear, ValidDb, History, Log, Selected, NewestTellsAll, Reverse, NoneAbandoned, ProbedStay, OfTables;
    TablesAreHistory(cat, start, es, keep);
    PreviewReliableIff(cat, start, OfTables(es, keep));
    FlagsAreRefusalsIff(cat, start, OfTables(es, keep));
  }
}
