/** What every step of every thread keeps, and what follows from it in every reachable state. */
module AtomicHashInvariant {
  import opened AtomicHash

  // ---- Facts about one submap that no step takes back ----

  /** The cell holds another key, or one that has been erased: it will never hold k. */
  predicate Settled(cell: Cell, k: Key)
  {
    cell.Erased? || (cell.Live? && cell.key != k)
  }

  /** The first p cells on the path of k are settled. */
  ghost predicate Passed(cells: seq<Cell>, k: Key, p: nat)
    requires cells != []
  {
    forall q: nat :: q < p ==> Settled(cells[Path(k, q, |cells|)], k)
  }

  /** Cell c is on the path of k, and all cells before it are settled. */
  ghost predicate Reached(cells: seq<Cell>, k: Key, c: nat)
    requires cells != []
  {
    exists p: nat :: p < |cells| && Path(k, p, |cells|) == c && Passed(cells, k, p)
  }

  /** The thread has passed the test of isFull_ and may fill an empty cell of submap i. */
  predicate Entering(th: Thread, i: nat)
  {
    th.pc in {TryLock, Construct} && th.submap == i
  }

  /** Submap i is marked full and no thread is past the test. */
  ghost predicate Drained(s: State, i: nat)
    requires HasMap(s, i)
  {
    s.slots[i].sub.full != 0 && forall t :: 0 <= t < |s.threads| ==> !Entering(s.threads[t], i)
  }

  /** Key k can no longer come into submap i: its path leads to an empty cell that stays empty, or to no such cell. */
  ghost predicate ClosedAt(s: State, i: nat, k: Key, p: nat)
    requires HasMap(s, i)
  {
    && p <= Capacity(s, i) && Passed(Cells(s, i), k, p)
    && (p < Capacity(s, i) ==> Cells(s, i)[Path(k, p, Capacity(s, i))] == Empty && Drained(s, i))
  }

  ghost predicate Closed(s: State, i: nat, k: Key)
    requires HasMap(s, i)
  {
    exists p: nat :: ClosedAt(s, i, k, p)
  }

  ghost predicate ClosedBelow(s: State, n: nat, k: Key)
  {
    forall i: nat :: i < n ==> HasMap(s, i) && Closed(s, i, k)
  }

  // ---- The invariant ----

  ghost predicate ThreadOk(s: State, th: Thread)
  {
    && CanStep(s, th)
    && (AtCell(th.pc)
       ==> th.probes < Capacity(s, th.submap) && th.idx == Path(th.key, th.probes, Capacity(s, th.submap)))
    && (InsertingInto(th.pc) ==>
          && th.submap <= th.next
          && Passed(Cells(s, th.submap), th.key, th.probes)
          && ClosedBelow(s, th.submap, th.key))
    && (Growing(th.pc) ==> ClosedBelow(s, th.next, th.key))
    && (th.pc == Construct ==> CellOf(s, th) == Locked)
    && (th.pc in {LeaveOk, MarkFull} ==> CellOf(s, th) == Live(th.key) || CellOf(s, th) == Erased)
    && (th.pc in {LeaveFull, SpinFull, SpinPending} ==> s.slots[th.submap].sub.full != 0)
    && (th.pc in {MarkDrained, Recheck} ==> Drained(s, th.submap))
    && (th.pc == AllocateMap ==> th.next == s.numMaps && s.slots[th.next].LockedSlot?)
  }

  predicate Allocating(th: Thread)
  {
    th.pc == AllocateMap || th.pc == PublishMap
  }

  predicate SameCell(th: Thread, th': Thread)
  {
    th.submap == th'.submap && th.idx == th'.idx
  }

  /** A locked cell, and the lock on the table of submaps, have one owner. */
  ghost predicate OwnersApart(s: State)
  {
    forall t, u :: 0 <= t < u < |s.threads| ==>
      && !(s.threads[t].pc == Construct && s.threads[u].pc == Construct && SameCell(s.threads[t], s.threads[u]))
      && !(Allocating(s.threads[t]) && Allocating(s.threads[u]))
  }

  ghost predicate Owned(s: State, i: nat, c: nat)
  {
    exists t: nat :: t < |s.threads| && s.threads[t].pc == Construct && s.threads[t].submap == i
      && s.threads[t].idx == c
  }

  ghost predicate CellOk(s: State, i: nat, c: nat)
    requires HasMap(s, i) && c < Capacity(s, i)
  {
    && (Cells(s, i)[c].Locked? ==> Owned(s, i, c))
    && (Cells(s, i)[c].Live? ==>
          i < s.numMaps && Reached(Cells(s, i), Cells(s, i)[c].key, c) && ClosedBelow(s, i, Cells(s, i)[c].key))
  }

  ghost predicate CellsOk(s: State)
  {
    forall i: nat, c: nat :: i < NUM_SUB_MAPS && HasMap(s, i) && c < Capacity(s, i) ==> CellOk(s, i, c)
  }

  /** The thread is counted in numPendingEntries_ of submap i. */
  predicate Pending(th: Thread, i: nat)
  {
    th.pc in {CheckFull, LeaveFull, TryLock, Construct, LeaveOk, LeaveThrow, LeaveLost} && th.submap == i
  }

  function Count(threads: seq<Thread>, i: nat): nat
  {
    if threads == [] then 0
    else Count(threads[..|threads| - 1], i) + (if Pending(threads[|threads| - 1], i) then 1 else 0)
  }

  ghost predicate CountersOk(s: State)
  {
    forall i: nat :: i < NUM_SUB_MAPS && HasMap(s, i) ==>
      && s.slots[i].sub.pending == Count(s.threads, i)
      && (s.slots[i].sub.full == NO_PENDING_INSERTS ==> Drained(s, i))
  }

  ghost predicate Shaped(s: State)
  {
    && |s.slots| == NUM_SUB_MAPS && 0 < s.numMaps <= NUM_SUB_MAPS
    && (forall i :: 0 <= i < s.numMaps ==> HasMap(s, i))
    && (forall i :: s.numMaps < i < NUM_SUB_MAPS ==> s.slots[i] == NullSlot)
  }

  ghost predicate ThreadsOk(s: State)
  {
    forall t :: 0 <= t < |s.threads| ==> ThreadOk(s, s.threads[t])
  }

  ghost predicate Inv(s: State)
  {
    Shaped(s) && ThreadsOk(s) && OwnersApart(s) && CellsOk(s) && CountersOk(s)
  }

  // ---- How the shared memory moves ----

  /** Empty, then locked, then empty again or a key, then erased. */
  predicate CellMoves(cell: Cell, cell': Cell)
  {
    || cell == cell'
    || (cell.Empty? && cell'.Locked?)
    || (cell.Locked? && (cell'.Empty? || cell'.Live?))
    || (cell.Live? && cell'.Erased?)
  }

  ghost predicate CellsMove(cells: seq<Cell>, cells': seq<Cell>)
  {
    |cells| == |cells'| && forall c :: 0 <= c < |cells| ==> CellMoves(cells[c], cells'[c])
  }

  ghost predicate EmptyKept(cells: seq<Cell>, cells': seq<Cell>)
    requires |cells| == |cells'|
  {
    forall c :: 0 <= c < |cells| && cells[c].Empty? ==> cells'[c].Empty?
  }

  ghost predicate SubMoves(s: State, s': State, i: nat)
    requires HasMap(s, i)
  {
    && HasMap(s', i) && CellsMove(Cells(s, i), Cells(s', i))
    && (s.slots[i].sub.full != 0 ==> s'.slots[i].sub.full != 0)
    && (Drained(s, i) ==> Drained(s', i) && EmptyKept(Cells(s, i), Cells(s', i)))
  }

  ghost predicate Moves(s: State, s': State)
  {
    && |s.slots| == |s'.slots| == NUM_SUB_MAPS && s.numMaps <= s'.numMaps
    && forall i: nat :: i < NUM_SUB_MAPS && HasMap(s, i) ==> SubMoves(s, s', i)
  }

  lemma PassedKept(cells: seq<Cell>, cells': seq<Cell>, k: Key, p: nat)
    requires cells != [] && CellsMove(cells, cells') && Passed(cells, k, p)
    ensures Passed(cells', k, p)
  {
    forall q: nat | q < p
      ensures Settled(cells'[Path(k, q, |cells'|)], k)
    {
      assert Settled(cells[Path(k, q, |cells|)], k);
    }
  }

  lemma ReachedKept(cells: seq<Cell>, cells': seq<Cell>, k: Key, c: nat)
    requires cells != [] && CellsMove(cells, cells') && Reached(cells, k, c)
    ensures Reached(cells', k, c)
  {
    var p: nat :| p < |cells| && Path(k, p, |cells|) == c && Passed(cells, k, p);
    PassedKept(cells, cells', k, p);
  }

  lemma ClosedBelowKept(s: State, s': State, n: nat, k: Key)
    requires Moves(s, s') && ClosedBelow(s, n, k) && n <= NUM_SUB_MAPS
    ensures ClosedBelow(s', n, k)
  {
    forall i: nat | i < n
      ensures HasMap(s', i) && Closed(s', i, k)
    {
      assert HasMap(s, i) && Closed(s, i, k);
      assert SubMoves(s, s', i);
      var p: nat :| ClosedAt(s, i, k, p);
      PassedKept(Cells(s, i), Cells(s', i), k, p);
      assert ClosedAt(s', i, k, p);
    }
  }

  /** What a closed submap does not hold: the key, or a cell reached for it. */
  lemma ClosedMeansAbsent(s: State, i: nat, k: Key, c: nat)
    requires HasMap(s, i) && Closed(s, i, k) && c < Capacity(s, i) && Reached(Cells(s, i), k, c)
    ensures Cells(s, i)[c] != Live(k)
    ensures Cells(s, i)[c] != Locked
  {
    var cells := Cells(s, i);
    var p: nat :| ClosedAt(s, i, k, p);
    var q: nat :| q < |cells| && Path(k, q, |cells|) == c && Passed(cells, k, q);
    if p < |cells| {
      NotPassed(cells, k, p, q);
    }
  }

  /** What has been passed does not include a cell that is not settled. */
  lemma NotPassed(cells: seq<Cell>, k: Key, p: nat, q: nat)
    requires cells != [] && Passed(cells, k, q) && !Settled(cells[Path(k, p, |cells|)], k)
    ensures q <= p
  {
  }

  // ---- One step, seen from the shared memory ----

  /** What each effect says about the thread that causes it. */
  lemma EffectCauses(s: State, th: Thread, c: Choice)
    requires ThreadOk(s, th)
    ensures var (next, e) := Act(s, th, c);
            && (e.SetCell? ==>
                  && SameCell(th, next) && th.key == next.key && AtCell(th.pc)
                  && (|| (th.pc == TryLock && next.pc == Construct && CellOf(s, th) == Empty && e.cell == Locked)
                      || (th.pc == Construct && next.pc == LeaveThrow && e.cell == Empty)
                      || (th.pc == Construct && next.pc == LeaveOk && e.cell == Live(th.key))
                      || (th.pc == EraseSwap && next.pc == ErasedOne && CellOf(s, th) == Live(th.key)
                         && e.cell == Erased)))
            && (e.AddPending? ==> AtCell(th.pc))
            && (e.SetFull?
               ==> AtCell(th.pc) && e.value != 0 && (e.value == NO_PENDING_INSERTS ==> th.pc == MarkDrained))
            && (e.LockSlot? ==> th.pc == LockMap && next.pc == AllocateMap && next.next == th.next
                                && s.slots[th.next].NullSlot?)
            && (e.FillSlot? ==> th.pc == AllocateMap && next.pc == PublishMap && next.next == th.next && e.size > 0)
            && (e.Publish? ==> th.pc == PublishMap)
            && (next.pc == Construct ==> e.SetCell? && e.cell == Locked)
            && (Allocating(next) ==> e.LockSlot? || e.FillSlot?)
            && CanApply(s, th, e)
  {
  }

  /** Only an unmarked submap is entered, and the counter follows the program counters. */
  lemma EffectCounts(s: State, th: Thread, c: Choice, i: nat)
    requires ThreadOk(s, th)
    ensures var (next, e) := Act(s, th, c);
            && (Entering(next, i) && !Entering(th, i) ==> i == th.submap && HasMap(s, i) && s.slots[i].sub.full == 0)
            && (if Pending(next, i) then 1 else 0) - (if Pending(th, i) then 1 else 0)
               == (if e.AddPending? && i == th.submap then e.delta else 0)
  {
  }

  lemma StepMoves(s: State, t: nat, c: Choice)
    requires Inv(s) && t < |s.threads|
    ensures ThreadOk(s, s.threads[t]) && Moves(s, Step(s, t, c))
  {
    var th, s' := s.threads[t], Step(s, t, c);
    var (next, e) := Act(s, th, c);
    EffectCauses(s, th, c);
    hide Act, ThreadOk, CanStep, CellsOk, CountersOk, OwnersApart, ClosedBelow, Passed;
    forall i: nat | i < NUM_SUB_MAPS && HasMap(s, i)
      ensures SubMoves(s, s', i)
    {
      EffectCounts(s, th, c, i);
      if Drained(s, i) {
        assert !Entering(s.threads[t], i);
      }
    }
  }

  // ---- One step, seen from the other threads ----

  /** What a thread relies on survives every move of the shared memory; its own cell and its lock on the
      table are only touched by their owner. */
  lemma ThreadKept(s: State, s': State, th: Thread)
    requires Shaped(s) && Shaped(s') && Moves(s, s') && ThreadOk(s, th)
    requires th.pc == Construct ==> Cells(s', th.submap)[th.idx] == Cells(s, th.submap)[th.idx]
    requires Allocating(th) ==> s'.numMaps == s.numMaps && s'.slots[th.next] == s.slots[th.next]
    ensures ThreadOk(s', th)
  {
    if InsertingInto(th.pc) {
      ClosedBelowKept(s, s', th.submap, th.key);
    }
    if Growing(th.pc) {
      ClosedBelowKept(s, s', th.next, th.key);
    }
    if AtCell(th.pc) {
      assert SubMoves(s, s', th.submap);
      if InsertingInto(th.pc) {
        PassedKept(Cells(s, th.submap), Cells(s', th.submap), th.key, th.probes);
      }
    }
    hide Passed, ClosedBelow;
  }

  lemma OthersKept(s: State, t: nat, c: Choice, u: nat)
    requires Inv(s) && t < |s.threads| && u < |s.threads| && u != t
    requires ThreadOk(s, s.threads[t]) && Moves(s, Step(s, t, c)) && Shaped(Step(s, t, c))
    ensures ThreadOk(Step(s, t, c), s.threads[u])
  {
    var th, thu, s' := s.threads[t], s.threads[u], Step(s, t, c);
    assert ThreadOk(s, thu);
    EffectCauses(s, th, c);
    var (next, e) := Act(s, th, c);
    assert Allocating(thu) ==> !Allocating(th);
    assert thu.pc == Construct && th.pc == Construct ==> !SameCell(th, thu);
    hide Act, CellsOk, CountersOk, OwnersApart, ClosedBelow, Passed, Moves, Shaped, ThreadsOk, Drained;
    ThreadKept(s, s', thu);
  }

  // ---- One step, seen from its own thread ----

  lemma ShapeKept(s: State, t: nat, c: Choice)
    requires Inv(s) && t < |s.threads| && ThreadOk(s, s.threads[t])
    ensures Shaped(Step(s, t, c))
  {
    var th := s.threads[t];
    EffectCauses(s, th, c);
    var (next, e) := Act(s, th, c);
    var s' := Step(s, t, c);
    assert th.next < s.numMaps ==> HasMap(s, th.next);
    hide Act, CellsOk, CountersOk, OwnersApart, ClosedBelow, Passed, ThreadsOk, Drained;
    forall i | 0 <= i < s'.numMaps
      ensures HasMap(s', i)
    {
      assert i < s.numMaps ==> HasMap(s, i);
    }
  }

  /** The stepping thread itself: while it adds a submap to the table. */
  lemma OwnKeptGrowing(s: State, t: nat, c: Choice)
    requires Inv(s) && t < |s.threads| && ThreadOk(s, s.threads[t]) && Growing(s.threads[t].pc)
    requires Moves(s, Step(s, t, c)) && Shaped(Step(s, t, c))
    ensures ThreadOk(Step(s, t, c), Step(s, t, c).threads[t])
  {
    hide CellsOk, CountersOk, OwnersApart, ThreadsOk, Drained, Closed, Moves, Inv;
    var th, s' := s.threads[t], Step(s, t, c);
    ClosedBelowKept(s, s', th.next, th.key);
    assert th.next < s.numMaps ==> HasMap(s, th.next);
  }

  /** The stepping thread itself: when it starts an operation, goes to another submap or ends. */
  lemma OwnKeptOutside(s: State, t: nat, c: Choice)
    requires Shaped(s) && t < |s.threads| && ThreadOk(s, s.threads[t])
    requires !AtCell(s.threads[t].pc) && !Growing(s.threads[t].pc)
    ensures ThreadOk(Step(s, t, c), Step(s, t, c).threads[t])
  {
    var th, s' := s.threads[t], Step(s, t, c);
    StartsAtAnchor(s, th, c);
    var next := Act(s, th, c).0;
    assert s'.slots == s.slots && s'.numMaps == s.numMaps && s'.threads[t] == next;
    hide Drained, Closed, Act, Step;
    SameMemory(s, s', next);
  }

  lemma SameMemory(s: State, s': State, th: Thread)
    requires s'.slots == s.slots && s'.numMaps == s.numMaps && CanStep(s, th)
    ensures CanStep(s', th)
  {
    assert forall i :: 0 <= i < s.numMaps ==> HasMap(s, i) && HasMap(s', i);
  }

  /** Outside the cells and the growth, a thread only goes to the first cell of a submap, or nowhere. */
  lemma StartsAtAnchor(s: State, th: Thread, c: Choice)
    requires Shaped(s) && CanStep(s, th) && !AtCell(th.pc) && !Growing(th.pc)
    ensures var (next, e) := Act(s, th, c);
            && e == NoEffect && CanStep(s, next) && !Growing(next.pc)
            && (InsertingInto(next.pc) ==> next.pc == LoadCell && next.submap == 0)
            && (AtCell(next.pc) ==> next.probes == 0 && next.idx == Anchor(next.key, Capacity(s, next.submap)))
            && next.pc != LeaveOk && next.pc != MarkFull
  {
    assert HasMap(s, 0) && (1 < s.numMaps ==> HasMap(s, 1));
  }

  /** A submap that turned an insertion away is closed for its key. */
  lemma TurnedAway(s: State, th: Thread)
    requires Shaped(s) && ThreadOk(s, th) && InsertingInto(th.pc)
    requires (CellOf(s, th).Empty? && Drained(s, th.submap)) || (Settled(CellOf(s, th), th.key) && LastProbe(s, th))
    ensures ClosedBelow(s, th.submap + 1, th.key)
  {
    var p := if CellOf(s, th).Empty? then th.probes else th.probes + 1;
    assert ClosedAt(s, th.submap, th.key, p);
  }

  lemma AfterFullOk(s: State, th: Thread)
    requires Shaped(s) && ThreadOk(s, th) && InsertingInto(th.pc) && ClosedBelow(s, th.submap + 1, th.key)
    ensures ThreadOk(s, AfterFull(s, th))
  {
    hide Closed, Drained;
  }

  lemma {:induction false} NonePending(threads: seq<Thread>, i: nat)
    requires Count(threads, i) == 0
    ensures forall t :: 0 <= t < |threads| ==> !Pending(threads[t], i)
  {
    if threads != [] {
      NonePending(threads[..|threads| - 1], i);
    }
  }

  /** An insertion that reads the mark, or the counter at zero, knows that the submap is drained. */
  lemma SpinEnds(s: State, th: Thread)
    requires CountersOk(s) && |s.slots| == NUM_SUB_MAPS && ThreadOk(s, th) && th.pc in {SpinFull, SpinPending}
    requires if th.pc == SpinFull then s.slots[th.submap].sub.full == NO_PENDING_INSERTS
      else s.slots[th.submap].sub.pending == 0
    ensures Drained(s, th.submap)
  {
    if th.pc == SpinPending {
      NonePending(s.threads, th.submap);
      assert forall t :: 0 <= t < |s.threads| && Entering(s.threads[t], th.submap) ==> Pending(s.threads[t], th.submap);
    }
  }

  /** Comparing with a key that is not the thread's own leads on along the path, or out of the submap. */
  lemma CompareInsertOk(s: State, th: Thread)
    requires Shaped(s) && ThreadOk(s, th) && th.pc == ReadKey
    ensures ThreadOk(s, CompareInsert(s, th))
  {
    hide Closed, Drained, Shaped;
    var cell := CellOf(s, th);
    if Settled(cell, th.key) {
      if LastProbe(s, th) {
        TurnedAway(s, th);
        AfterFullOk(s, th);
      } else {
        assert Passed(Cells(s, th.submap), th.key, th.probes + 1);
      }
    }
  }

  lemma SearchOk(s: State, th: Thread)
    requires Shaped(s) && ThreadOk(s, th) && (th.pc == FindCell || th.pc == EraseCell || th.pc == EraseSwap)
    ensures th.pc == FindCell ==> ThreadOk(s, CompareFind(s, th))
    ensures th.pc == EraseCell ==> ThreadOk(s, CompareErase(s, th))
    ensures th.pc == EraseSwap ==> ThreadOk(s, AfterKept(s, th))
  {
    hide Closed, Drained, Passed, ClosedBelow;
    if th.pc == FindCell {
      FindOk(s, th);
    } else {
      EraseOk(s, th);
    }
  }

  lemma FindOk(s: State, th: Thread)
    requires Shaped(s) && ThreadOk(s, th) && th.pc == FindCell
    ensures ThreadOk(s, CompareFind(s, th))
  {
    hide Closed, Drained, Passed, ClosedBelow;
  }

  lemma EraseOk(s: State, th: Thread)
    requires Shaped(s) && ThreadOk(s, th) && (th.pc == EraseCell || th.pc == EraseSwap)
    ensures if th.pc == EraseCell then ThreadOk(s, CompareErase(s, th)) else ThreadOk(s, AfterKept(s, th))
  {
    hide Closed, Drained, Passed, ClosedBelow;
  }

  /** In the memory before the step, the thread's next place is already justified, except for what the step writes. */
  lemma NextPlaceOk(s: State, th: Thread, c: Choice)
    requires Shaped(s) && CountersOk(s) && ThreadOk(s, th) && AtCell(th.pc)
    requires !Act(s, th, c).1.SetCell?
    ensures ThreadOk(s, Act(s, th, c).0)
  {
    hide CountersOk, Closed, Drained, Passed;
    if th.pc == ReadKey {
      CompareInsertOk(s, th);
    } else if th.pc == FindCell || th.pc == EraseCell || th.pc == EraseSwap {
      SearchOk(s, th);
    } else if th.pc == SpinFull || th.pc == SpinPending || th.pc == Recheck {
      DrainedPlaceOk(s, th, c);
    } else {
      InsertPlaceOk(s, th, c);
    }
    hide ThreadOk, CompareInsert, CompareFind, CompareErase, AfterKept;
  }

  lemma InsertPlaceOk(s: State, th: Thread, c: Choice)
    requires Shaped(s) && ThreadOk(s, th) && InsertingInto(th.pc) && !Act(s, th, c).1.SetCell?
    requires th.pc != ReadKey && th.pc != SpinFull && th.pc != SpinPending && th.pc != Recheck
    ensures ThreadOk(s, Act(s, th, c).0)
  {
    hide Closed, Drained, Passed, ClosedBelow, HasMap, Shaped;
    assert ThreadOk(s, th);
  }

  lemma DrainedPlaceOk(s: State, th: Thread, c: Choice)
    requires Shaped(s) && CountersOk(s) && ThreadOk(s, th)
      && (th.pc == SpinFull || th.pc == SpinPending || th.pc == Recheck)
    ensures ThreadOk(s, Act(s, th, c).0)
  {
    hide Closed, Passed, ClosedBelow;
    if th.pc == Recheck {
      if CellOf(s, th).Empty? {
        TurnedAway(s, th);
        AfterFullOk(s, th);
      }
    } else if if th.pc == SpinFull then s.slots[th.submap].sub.full == NO_PENDING_INSERTS
      else s.slots[th.submap].sub.pending == 0 {
      SpinEnds(s, th);
    }
    hide Drained, CountersOk;
  }

  lemma OwnKeptInside(s: State, t: nat, c: Choice)
    requires Inv(s) && t < |s.threads| && ThreadOk(s, s.threads[t]) && AtCell(s.threads[t].pc)
    requires Moves(s, Step(s, t, c)) && Shaped(Step(s, t, c))
    ensures ThreadOk(Step(s, t, c), Step(s, t, c).threads[t])
  {
    hide Closed, Drained, Passed, ClosedBelow, CellsOk, CountersOk, OwnersApart, Moves, AtCell;
    var th, s' := s.threads[t], Step(s, t, c);
    var (next, e) := Act(s, th, c);
    EffectCauses(s, th, c);
    if e.SetCell? {
      var idle := th.(pc := LeaveLost);
      if InsertingInto(th.pc) {
        assert ThreadOk(s, idle);
        ThreadKept(s, s', idle);
      } else {
        assert ThreadOk(s, th.(pc := ErasedOne));
        ThreadKept(s, s', th.(pc := ErasedOne));
      }
    } else {
      NextPlaceOk(s, th, c);
      ThreadKept(s, s', next);
    }
  }

  // ---- One step, seen from the owners, the cells and the counters ----

  lemma OwnersKept(s: State, t: nat, c: Choice)
    requires Inv(s) && t < |s.threads| && ThreadOk(s, s.threads[t])
    ensures OwnersApart(Step(s, t, c))
  {
    var th, s' := s.threads[t], Step(s, t, c);
    var (next, e) := Act(s, th, c);
    EffectCauses(s, th, c);
    assert th.next < s.numMaps ==> HasMap(s, th.next);
    hide Act, CellsOk, CountersOk, ClosedBelow, Passed, Drained, Shaped;
    forall u | 0 <= u < |s.threads| && u != t
      ensures !(next.pc == Construct && s.threads[u].pc == Construct && SameCell(next, s.threads[u]))
      ensures !(Allocating(next) && Allocating(s.threads[u]))
    {
      assert ThreadOk(s, s.threads[u]);
    }
    hide ThreadsOk, ThreadOk;
  }

  /** Cells that the step does not write. */
  lemma CellKept(s: State, t: nat, c: Choice, i: nat, n: nat)
    requires Inv(s) && t < |s.threads| && ThreadOk(s, s.threads[t]) && Moves(s, Step(s, t, c))
    requires i < NUM_SUB_MAPS && HasMap(s, i) && n < Capacity(s, i)
    requires var e := Act(s, s.threads[t], c).1;
             !(e.SetCell? && i == s.threads[t].submap && n == s.threads[t].idx)
    ensures HasMap(Step(s, t, c), i) && n < Capacity(Step(s, t, c), i) && CellOk(Step(s, t, c), i, n)
  {
    hide CountersOk, Shaped, ThreadsOk, ClosedBelow, Passed, Drained, Reached;
    var th, s' := s.threads[t], Step(s, t, c);
    var (next, e) := Act(s, th, c);
    EffectCauses(s, th, c);
    assert SubMoves(s, s', i);
    assert CellOk(s, i, n);
    hide Act, CountersOk, Shaped, ThreadsOk, CellsOk;
    assert Cells(s', i)[n] == Cells(s, i)[n];
    if Cells(s, i)[n].Live? {
      var k := Cells(s, i)[n].key;
      ReachedKept(Cells(s, i), Cells(s', i), k, n);
      ClosedBelowKept(s, s', i, k);
    }
    hide ClosedBelow, Passed, Drained, Reached;
    if Cells(s, i)[n].Locked? {
      var u: nat :| u < |s.threads| && s.threads[u].pc == Construct && s.threads[u].submap == i
        && s.threads[u].idx == n;
      assert u == t ==> e.SetCell?;
      assert s'.threads[u] == s.threads[u];
    }
  }

  /** The cell that the step writes. */
  lemma WrittenCellOk(s: State, t: nat, c: Choice)
    requires Inv(s) && t < |s.threads| && ThreadOk(s, s.threads[t]) && Moves(s, Step(s, t, c))
    requires Act(s, s.threads[t], c).1.SetCell? && ThreadOk(Step(s, t, c), Step(s, t, c).threads[t])
    ensures var th, s' := s.threads[t], Step(s, t, c);
            InBounds(s', th) && CellOk(s', th.submap, th.idx)
  {
    var th, s' := s.threads[t], Step(s, t, c);
    var (next, e) := Act(s, th, c);
    EffectCauses(s, th, c);
    assert SubMoves(s, s', th.submap);
    assert s'.threads[t] == next;
    if e.cell.Live? {
      assert Path(th.key, th.probes, Capacity(s', th.submap)) == th.idx
        && Passed(Cells(s', th.submap), th.key, th.probes);
    }
    hide Act, CountersOk, Shaped, ThreadsOk, CellsOk, ClosedBelow, Passed, Drained;
  }

  lemma NewCellsOk(s: State, t: nat, c: Choice, i: nat, n: nat)
    requires Inv(s) && t < |s.threads| && ThreadOk(s, s.threads[t])
    requires i < NUM_SUB_MAPS && !HasMap(s, i) && HasMap(Step(s, t, c), i) && n < Capacity(Step(s, t, c), i)
    ensures CellOk(Step(s, t, c), i, n)
  {
    EffectCauses(s, s.threads[t], c);
    hide Act, CountersOk, Shaped, ThreadsOk, CellsOk, ClosedBelow, Reached, Drained;
  }

  lemma CellsKept(s: State, t: nat, c: Choice)
    requires Inv(s) && t < |s.threads| && ThreadOk(s, s.threads[t]) && Moves(s, Step(s, t, c))
    requires ThreadOk(Step(s, t, c), Step(s, t, c).threads[t])
    ensures CellsOk(Step(s, t, c))
  {
    var th, s' := s.threads[t], Step(s, t, c);
    var e := Act(s, th, c).1;
    hide *;
    forall i: nat, n: nat | i < NUM_SUB_MAPS && HasMap(s', i) && n < Capacity(s', i)
      ensures CellOk(s', i, n)
    {
      if !HasMap(s, i) {
        NewCellsOk(s, t, c, i, n);
      } else if e.SetCell? && i == th.submap && n == th.idx {
        WrittenCellOk(s, t, c);
      } else {
        SameCapacity(s, s', i);
        CellKept(s, t, c, i, n);
      }
    }
    CellsOkIntro(s');
  }

  lemma SameCapacity(s: State, s': State, i: nat)
    requires Moves(s, s') && i < NUM_SUB_MAPS && HasMap(s, i)
    ensures HasMap(s', i) && Capacity(s', i) == Capacity(s, i)
  {
    assert SubMoves(s, s', i);
  }

  lemma CellsOkIntro(s: State)
    requires forall i: nat, n: nat :: i < NUM_SUB_MAPS && HasMap(s, i) && n < Capacity(s, i) ==> CellOk(s, i, n)
    ensures CellsOk(s)
  {
  }

  lemma {:induction false} CountUpdate(threads: seq<Thread>, t: nat, th: Thread, i: nat)
    requires t < |threads|
    ensures Count(threads[t := th], i)
            == Count(threads, i) - (if Pending(threads[t], i) then 1 else 0) + (if Pending(th, i) then 1 else 0)
  {
    var n := |threads| - 1;
    if t == n {
      assert threads[t := th][..n] == threads[..n];
    } else {
      assert threads[t := th][..n] == threads[..n][t := th];
      CountUpdate(threads[..n], t, th, i);
    }
  }

  lemma {:induction false} NobodyCounted(threads: seq<Thread>, i: nat)
    requires forall t :: 0 <= t < |threads| ==> !Pending(threads[t], i)
    ensures Count(threads, i) == 0
  {
    if threads != [] {
      NobodyCounted(threads[..|threads| - 1], i);
    }
  }

  lemma CountersKept(s: State, t: nat, c: Choice)
    requires Inv(s) && t < |s.threads| && ThreadOk(s, s.threads[t]) && Moves(s, Step(s, t, c))
    ensures CountersOk(Step(s, t, c))
  {
    var th, s' := s.threads[t], Step(s, t, c);
    var (next, e) := Act(s, th, c);
    EffectCauses(s, th, c);
    forall i: nat | i < NUM_SUB_MAPS && HasMap(s', i)
      ensures s'.slots[i].sub.pending == Count(s'.threads, i)
      ensures s'.slots[i].sub.full == NO_PENDING_INSERTS ==> Drained(s', i)
    {
      EffectCounts(s, th, c, i);
      CountUpdate(s.threads, t, next, i);
      if !HasMap(s, i) {
        NobodyThere(s, i);
      } else {
        assert SubMoves(s, s', i);
      }
      hide Act, Shaped, ThreadsOk, CellsOk, OwnersApart, CellsMove, EmptyKept, Moves, ClosedBelow, Passed;
    }
  }

  lemma NobodyThere(s: State, i: nat)
    requires ThreadsOk(s) && !HasMap(s, i)
    ensures Count(s.threads, i) == 0
  {
    forall t | 0 <= t < |s.threads|
      ensures !Pending(s.threads[t], i)
    {
      assert ThreadOk(s, s.threads[t]);
    }
    NobodyCounted(s.threads, i);
  }

  /** Every step of every thread keeps the invariant. */
  lemma StepKeeps(s: State, t: nat, c: Choice)
    requires Inv(s) && t < |s.threads|
    ensures CanStep(s, s.threads[t]) && Inv(Step(s, t, c)) && Moves(s, Step(s, t, c))
  {
    StepMoves(s, t, c);
    hide *;
    ShapeKept(s, t, c);
    OwnThreadKept(s, t, c);
    OwnersKept(s, t, c);
    CellsKept(s, t, c);
    CountersKept(s, t, c);
    AllKept(s, t, c);
  }

  lemma OwnThreadKept(s: State, t: nat, c: Choice)
    requires Inv(s) && t < |s.threads| && ThreadOk(s, s.threads[t])
    requires Moves(s, Step(s, t, c)) && Shaped(Step(s, t, c))
    ensures |Step(s, t, c).threads| == |s.threads| && ThreadOk(Step(s, t, c), Step(s, t, c).threads[t])
  {
    hide Shaped, Moves, ThreadOk, Act, AtCell, Growing;
    if AtCell(s.threads[t].pc) {
      OwnKeptInside(s, t, c);
    } else if Growing(s.threads[t].pc) {
      OwnKeptGrowing(s, t, c);
    } else {
      OwnKeptOutside(s, t, c);
    }
  }

  lemma AllKept(s: State, t: nat, c: Choice)
    requires Inv(s) && t < |s.threads| && ThreadOk(s, s.threads[t])
    requires var s' := Step(s, t, c);
             && Moves(s, s') && Shaped(s') && OwnersApart(s') && CellsOk(s') && CountersOk(s')
             && |s'.threads| == |s.threads| && ThreadOk(s', s'.threads[t])
    ensures Inv(Step(s, t, c))
  {
    var s' := Step(s, t, c);
    forall u | 0 <= u < |s'.threads|
      ensures ThreadOk(s', s'.threads[u])
    {
      if u != t {
        OthersKept(s, t, c, u);
      }
    }
    hide Shaped, OwnersApart, CellsOk, CountersOk, ThreadOk, Moves, Act;
  }

  lemma InitOk(s: State)
    requires Init(s)
    ensures Inv(s)
  {
    NobodyCounted(s.threads, 0);
  }
}
