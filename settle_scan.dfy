/**
 * One pass of the settle scan as a pure function of the state it reads and
 * writes: the last checked positions, the hopper index, the hopper tiles'
 * "scheduled for delayed block update" flags and the delayed block updates
 * requested so far.  `Step` handles one tracked item, `Scan` folds it over
 * the tracked items in registry order.
 */
module SettleScan {
  import opened Wrappers
  import opened World
  import opened HopperIndex

  datatype ScanState = ScanState(
    last: map<EntityId, Position>,
    index: Index,
    flags: map<HopperKey, bool>,
    updates: seq<HopperKey>)

  /** The item is still moving: it was checked before, in this world, at least 1.0 away. */
  predicate Skips(st: ScanState, e: ItemEntity, p: Position) {
    e.id in st.last && MovedFar(p, st.last[e.id])
  }

  /**
   * One item of the scan, currently at `p`: skip it if it is still moving;
   * otherwise record `p` as its last position, find the hopper it rests on,
   * request a block update for that hopper unless its tile is already flagged
   * (and flag it), and file the item in that hopper's bucket.
   */
  function Step(st: ScanState, e: ItemEntity, p: Position, hopperBlocks: set<HopperKey>): (r: ScanState)
    ensures Skips(st, e, p) ==> r == st
    ensures !Skips(st, e, p) ==> Lookup(r.last, e.id) == Some(p)
    ensures forall id | id != e.id :: Lookup(r.last, id) == Lookup(st.last, id)
    ensures r.flags.Keys == st.flags.Keys
    ensures |st.updates| <= |r.updates| <= |st.updates| + 1
    ensures r.updates[..|st.updates|] == st.updates
  {
    if Skips(st, e, p) then st
    else
      var recorded := st.(last := st.last[e.id := p]);
      match ResolveHopper(hopperBlocks, st.flags.Keys, p)
      case None => recorded
      case Some(h) =>
        var flagged :=
          if st.flags[h] then recorded
          else recorded.(flags := st.flags[h := true], updates := st.updates + [h]);
        flagged.(index := Insert(st.index, h, e))
  }

  /** The scan over the items `es`, in that order, each at `positionOf` of it. */
  function Scan(st: ScanState, es: seq<ItemEntity>, positionOf: ItemEntity -> Position,
                hopperBlocks: set<HopperKey>): (r: ScanState)
    ensures r.flags.Keys == st.flags.Keys
    ensures |st.updates| <= |r.updates| <= |st.updates| + |es|
    decreases |es|
  {
    if es == [] then st
    else
      var e := es[|es| - 1];
      Step(Scan(st, es[..|es| - 1], positionOf, hopperBlocks), e, positionOf(e), hopperBlocks)
  }

  predicate Absent(id: EntityId, es: seq<ItemEntity>) {
    forall i | 0 <= i < |es| :: es[i].id != id
  }

  predicate DistinctIds(es: seq<ItemEntity>) {
    forall i, j | 0 <= i < j < |es| :: es[i].id != es[j].id
  }

  /**
   * How the tile flags and the requested updates evolve from `st` to `r`: the
   * same tiles, a set flag stays set, old requests are kept, and every new
   * request is for a hopper whose flag was clear in `st` and is set in `r`,
   * with no hopper requested twice, and every flag that rose came with a
   * request.
   */
  ghost predicate FlagsRise(st: ScanState, r: ScanState) {
    && r.flags.Keys == st.flags.Keys
    && (forall h | h in st.flags && st.flags[h] :: r.flags[h])
    && |st.updates| <= |r.updates|
    && r.updates[..|st.updates|] == st.updates
    && (forall j | |st.updates| <= j < |r.updates| ::
          r.updates[j] in st.flags && !st.flags[r.updates[j]] && r.flags[r.updates[j]])
    && (forall i, j | |st.updates| <= i < j < |r.updates| :: r.updates[i] != r.updates[j])
    && (forall h | h in st.flags && !st.flags[h] && r.flags[h] :: h in r.updates[|st.updates|..])
  }

  lemma FlagsRiseTransitive(a: ScanState, b: ScanState, c: ScanState)
    requires FlagsRise(a, b) && FlagsRise(b, c)
    ensures FlagsRise(a, c)
  {
    var na, nb := |a.updates|, |b.updates|;
    assert c.updates[..na] == c.updates[..nb][..na];
    forall i | 0 <= i < nb ensures c.updates[i] == b.updates[i] {
      assert c.updates[..nb][i] == c.updates[i];
    }
    forall h | h in a.flags && !a.flags[h] && c.flags[h]
      ensures h in c.updates[na..]
    {
      if b.flags[h] {
        var j :| 0 <= j < |b.updates[na..]| && b.updates[na..][j] == h;
        assert c.updates[na..][j] == c.updates[na + j] == b.updates[na + j];
      } else {
        var j :| 0 <= j < |c.updates[nb..]| && c.updates[nb..][j] == h;
        assert c.updates[na..][nb - na + j] == h;
      }
    }
  }

  /** Scanning `a` and then `b` is scanning `a + b`. */
  lemma {:induction false} ScanAppend(st: ScanState, a: seq<ItemEntity>, b: seq<ItemEntity>,
                                      positionOf: ItemEntity -> Position, hopperBlocks: set<HopperKey>)
    ensures Scan(st, a + b, positionOf, hopperBlocks)
         == Scan(Scan(st, a, positionOf, hopperBlocks), b, positionOf, hopperBlocks)
    decreases |b|
  {
    if b == [] {
      assert a + b == a;
    } else {
      var n := |b| - 1;
      assert (a + b)[..|a + b| - 1] == a + b[..n];
      assert (a + b)[|a + b| - 1] == b[n];
      ScanAppend(st, a, b[..n], positionOf, hopperBlocks);
    }
  }

  /**
   * A scan requests a delayed block update only for hoppers whose flag was
   * clear, sets their flag, and requests each of them at most once.
   */
  lemma {:induction false} ScanSchedulesOnce(st: ScanState, es: seq<ItemEntity>,
                                             positionOf: ItemEntity -> Position, hopperBlocks: set<HopperKey>)
    ensures FlagsRise(st, Scan(st, es, positionOf, hopperBlocks))
    decreases |es|
  {
    if es == [] {
      assert st.updates[..|st.updates|] == st.updates;
    } else {
      var n := |es| - 1;
      var mid := Scan(st, es[..n], positionOf, hopperBlocks);
      ScanSchedulesOnce(st, es[..n], positionOf, hopperBlocks);
      var r := Step(mid, es[n], positionOf(es[n]), hopperBlocks);
      assert FlagsRise(mid, r) by {
        assert r.updates[..|mid.updates|] == mid.updates;
      }
      FlagsRiseTransitive(st, mid, r);
    }
  }

  /**
   * While a hopper's tile is flagged, a scan requests no block update for it,
   * however many items rest on it, and leaves the flag set.
   */
  lemma {:induction false} FlaggedHopperNotRescheduled(st: ScanState, es: seq<ItemEntity>, positionOf: ItemEntity -> Position,
                                    hopperBlocks: set<HopperKey>, h: HopperKey)
    requires h in st.flags && st.flags[h]
    ensures var r := Scan(st, es, positionOf, hopperBlocks);
            && |st.updates| <= |r.updates|
            && r.updates[..|st.updates|] == st.updates
            && h !in r.updates[|st.updates|..]
            && h in r.flags && r.flags[h]
  {
    ScanSchedulesOnce(st, es, positionOf, hopperBlocks);
  }

  /** An item the scan does not visit keeps its last position and its bucket entries. */
  lemma {:induction false} ScanUntouched(st: ScanState, es: seq<ItemEntity>, positionOf: ItemEntity -> Position,
                                         hopperBlocks: set<HopperKey>, id: EntityId)
    requires Absent(id, es)
    ensures var r := Scan(st, es, positionOf, hopperBlocks);
            && Lookup(r.last, id) == Lookup(st.last, id)
            && forall h :: Entry(r.index, h, id) == Entry(st.index, h, id)
    decreases |es|
  {
    if es != [] {
      var n := |es| - 1;
      ScanUntouched(st, es[..n], positionOf, hopperBlocks, id);
    }
  }

  /** Scanning the single item `e` is one step. */
  lemma ScanOne(st: ScanState, e: ItemEntity, positionOf: ItemEntity -> Position, hopperBlocks: set<HopperKey>)
    ensures Scan(st, [e], positionOf, hopperBlocks) == Step(st, e, positionOf(e), hopperBlocks)
  {
  }

  /**
   * The scan over `es` is the scan up to item `k`, then the step of item `k`,
   * then the scan of the rest; with distinct ids, neither part visits item
   * `k` again.
   */
  lemma ScanSplitAt(st: ScanState, es: seq<ItemEntity>, k: int, positionOf: ItemEntity -> Position,
                    hopperBlocks: set<HopperKey>)
    requires DistinctIds(es) && 0 <= k < |es|
    ensures Absent(es[k].id, es[..k]) && Absent(es[k].id, es[k + 1..])
    ensures var mid := Scan(st, es[..k], positionOf, hopperBlocks);
            Scan(st, es, positionOf, hopperBlocks)
            == Scan(Step(mid, es[k], positionOf(es[k]), hopperBlocks), es[k + 1..], positionOf, hopperBlocks)
  {
    var e := es[k];
    var pre, post := es[..k], es[k + 1..];
    assert es == (pre + [e]) + post;
    ScanAppend(st, pre + [e], post, positionOf, hopperBlocks);
    ScanAppend(st, pre, [e], positionOf, hopperBlocks);
    ScanOne(Scan(st, pre, positionOf, hopperBlocks), e, positionOf, hopperBlocks);
    forall i | 0 <= i < |post| ensures post[i].id != e.id {
      assert post[i] == es[k + 1 + i];
    }
  }

  /**
   * One step of an item that is not still moving: its position is recorded,
   * it is filed at the hopper it rests on (if any) and nowhere else, and
   * that hopper is flagged, with a request when the flag was clear.
   */
  lemma StepSettled(st: ScanState, e: ItemEntity, p: Position, hopperBlocks: set<HopperKey>)
    requires !Skips(st, e, p)
    ensures var r := Step(st, e, p, hopperBlocks);
            var found := ResolveHopper(hopperBlocks, st.flags.Keys, p);
            && Lookup(r.last, e.id) == Some(p)
            && (forall h :: Entry(r.index, h, e.id) == if found == Some(h) then Some(e) else Entry(st.index, h, e.id))
            && (found.Some? ==> found.value in r.flags && r.flags[found.value])
            && (found.Some? && !st.flags[found.value] ==> r.updates == st.updates + [found.value])
            && (found.None? || st.flags[found.value] ==> r.updates == st.updates)
  {
  }

  /**
   * A tracked item that is not still moving ends the scan with its current
   * position as last position, whether or not it rests on a hopper.
   */
  lemma ScanSettledRecordsPosition(st: ScanState, es: seq<ItemEntity>, k: int, positionOf: ItemEntity -> Position,
                                   hopperBlocks: set<HopperKey>)
    requires DistinctIds(es) && 0 <= k < |es|
    requires !Skips(st, es[k], positionOf(es[k]))
    ensures Lookup(Scan(st, es, positionOf, hopperBlocks).last, es[k].id) == Some(positionOf(es[k]))
  {
    var e := es[k];
    ScanSplitAt(st, es, k, positionOf, hopperBlocks);
    var mid := Scan(st, es[..k], positionOf, hopperBlocks);
    ScanUntouched(st, es[..k], positionOf, hopperBlocks, e.id);
    assert !Skips(mid, e, positionOf(e));
    var after := Step(mid, e, positionOf(e), hopperBlocks);
    ScanUntouched(after, es[k + 1..], positionOf, hopperBlocks, e.id);
  }

  /**
   * A tracked item that is not still moving is filed, under its id, in
   * exactly the hopper it rests on (if any), and that hopper's flag is then
   * set, with a block update requested for it in this scan if its flag was
   * clear before; its entries in all other buckets are as they were.
   */
  lemma ScanSettledFiled(st: ScanState, es: seq<ItemEntity>, k: int, positionOf: ItemEntity -> Position,
                         hopperBlocks: set<HopperKey>)
    requires DistinctIds(es) && 0 <= k < |es|
    requires !Skips(st, es[k], positionOf(es[k]))
    ensures var r := Scan(st, es, positionOf, hopperBlocks);
            var found := ResolveHopper(hopperBlocks, st.flags.Keys, positionOf(es[k]));
            && (forall h :: Entry(r.index, h, es[k].id) == if found == Some(h) then Some(es[k]) else Entry(st.index, h, es[k].id))
            && (found.Some? ==> found.value in r.flags && r.flags[found.value])
            && (found.Some? && !st.flags[found.value] ==> found.value in r.updates[|st.updates|..])
  {
    var e := es[k];
    var p := positionOf(e);
    ScanSplitAt(st, es, k, positionOf, hopperBlocks);
    var mid := Scan(st, es[..k], positionOf, hopperBlocks);
    ScanUntouched(st, es[..k], positionOf, hopperBlocks, e.id);
    ScanSchedulesOnce(st, es[..k], positionOf, hopperBlocks);
    assert !Skips(mid, e, p);
    StepSettled(mid, e, p, hopperBlocks);
    var after := Step(mid, e, p, hopperBlocks);
    ScanUntouched(after, es[k + 1..], positionOf, hopperBlocks, e.id);
    ScanSchedulesOnce(after, es[k + 1..], positionOf, hopperBlocks);
    var r := Scan(st, es, positionOf, hopperBlocks);
    assert r == Scan(after, es[k + 1..], positionOf, hopperBlocks);
    ScanSchedulesOnce(st, es, positionOf, hopperBlocks);
  }

  /**
   * A tracked item that is still moving keeps its last position, and the
   * scan neither files it in nor drops it from any bucket.
   */
  lemma ScanSkipped(st: ScanState, es: seq<ItemEntity>, k: int, positionOf: ItemEntity -> Position,
                    hopperBlocks: set<HopperKey>)
    requires DistinctIds(es) && 0 <= k < |es|
    requires Skips(st, es[k], positionOf(es[k]))
    ensures var r := Scan(st, es, positionOf, hopperBlocks);
            && Lookup(r.last, es[k].id) == Lookup(st.last, es[k].id)
            && forall h :: Entry(r.index, h, es[k].id) == Entry(st.index, h, es[k].id)
  {
    var e := es[k];
    ScanSplitAt(st, es, k, positionOf, hopperBlocks);
    var mid := Scan(st, es[..k], positionOf, hopperBlocks);
    ScanUntouched(st, es[..k], positionOf, hopperBlocks, e.id);
    ScanUntouched(mid, es[k + 1..], positionOf, hopperBlocks, e.id);
  }

  /** The scan files every item under its own id. */
  lemma {:induction false} ScanKeepsWellKeyed(st: ScanState, es: seq<ItemEntity>, positionOf: ItemEntity -> Position,
                                              hopperBlocks: set<HopperKey>)
    requires WellKeyed(st.index)
    ensures WellKeyed(Scan(st, es, positionOf, hopperBlocks).index)
    decreases |es|
  {
    if es != [] {
      ScanKeepsWellKeyed(st, es[..|es| - 1], positionOf, hopperBlocks);
    }
  }
}
