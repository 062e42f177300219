/** What holds in every reachable state and over every run of the lock-free hash map. */
module AtomicHashRuns {
  import opened AtomicHash
  import opened AtomicHashInvariant

  // ---- Every reachable state ----

  lemma NextKeeps(s: State, s': State)
    requires Inv(s) && Next(s, s')
    ensures Inv(s') && Moves(s, s') && |s'.threads| == |s.threads|
  {
    var t: nat, c: Choice :| t < |s.threads| && CanStep(s, s.threads[t]) && s' == Step(s, t, c);
    StepKeeps(s, t, c);
  }

  lemma {:induction false} Reachable(r: seq<State>, n: nat)
    requires Run(r) && n < |r|
    ensures Inv(r[n]) && |r[n].threads| == |r[0].threads|
  {
    if n == 0 {
      InitOk(r[0]);
    } else {
      Reachable(r, n - 1);
      assert Follows(r, n - 1);
      NextKeeps(r[n - 1], r[n]);
    }
  }

  /** In no reachable state is a thread stuck or outside its bounds. */
  lemma NobodyIsStuck(r: seq<State>, n: nat, t: nat)
    requires Run(r) && n < |r| && t < |r[n].threads|
    ensures CanStep(r[n], r[n].threads[t])
  {
    Reachable(r, n);
    assert ThreadOk(r[n], r[n].threads[t]);
  }

  ghost predicate LiveAt(s: State, i: nat, c: nat, k: Key)
  {
    i < NUM_SUB_MAPS && HasMap(s, i) && c < Capacity(s, i) && Cells(s, i)[c] == Live(k)
  }

  ghost predicate Present(s: State, k: Key)
  {
    exists i: nat, c: nat :: LiveAt(s, i, c, k)
  }

  /** A key lives in one cell of one submap. */
  lemma KeyIsUnique(s: State, k: Key, i: nat, c: nat, j: nat, d: nat)
    requires Inv(s) && LiveAt(s, i, c, k) && LiveAt(s, j, d, k)
    ensures i == j && c == d
  {
    assert CellOk(s, i, c) && CellOk(s, j, d);
    if i == j {
      SameSubmap(Cells(s, i), k, c, d);
    } else if i < j {
      ClosedMeansAbsent(s, i, k, c);
    } else {
      ClosedMeansAbsent(s, j, k, d);
    }
  }

  lemma SameSubmap(cells: seq<Cell>, k: Key, c: nat, d: nat)
    requires c < |cells| && d < |cells| && Reached(cells, k, c) && Reached(cells, k, d)
    requires !Settled(cells[c], k) && !Settled(cells[d], k)
    ensures c == d
  {
    var p: nat :| p < |cells| && Path(k, p, |cells|) == c && Passed(cells, k, p);
    var q: nat :| q < |cells| && Path(k, q, |cells|) == d && Passed(cells, k, q);
    NotPassed(cells, k, p, q);
    NotPassed(cells, k, q, p);
  }

  /** On its way to the cell of a live key, a probe meets neither an empty nor a locked cell. */
  lemma PathIsFull(s: State, i: nat, c: nat, k: Key)
    requires Inv(s) && LiveAt(s, i, c, k)
    ensures i < s.numMaps
    ensures exists p: nat :: p < Capacity(s, i) && Path(k, p, Capacity(s, i)) == c && Passed(Cells(s, i), k, p)
  {
    assert CellOk(s, i, c);
    assert Reached(Cells(s, i), k, c);
  }

  /** While a key is present, nobody constructs a second cell for it. */
  lemma NobodyConstructs(s: State, k: Key, t: nat)
    requires Inv(s) && Present(s, k) && t < |s.threads| && s.threads[t].key == k
    ensures s.threads[t].pc != Construct
  {
    var i: nat, c: nat :| LiveAt(s, i, c, k);
    var th := s.threads[t];
    assert ThreadOk(s, th) && CellOk(s, i, c);
    if th.pc == Construct {
      var cells := Cells(s, th.submap);
      assert Path(k, th.probes, |cells|) == th.idx;
      assert Reached(cells, k, th.idx);
      if i < th.submap {
        ClosedMeansAbsent(s, i, k, c);
      } else if th.submap < i {
        ClosedMeansAbsent(s, th.submap, k, th.idx);
      } else {
        SameSubmap(cells, k, c, th.idx);
      }
    }
  }

  // ---- The map as a set of keys ----

  /** What a step of a thread does to the set of keys: an insertion that succeeds adds an absent key, an
      erase that succeeds removes a present one, and nothing else changes the set. */
  lemma StepOnSet(s: State, t: nat, c: Choice, k: Key)
    requires Inv(s) && t < |s.threads| && CanStep(s, s.threads[t])
    ensures var th, next := s.threads[t], Act(s, s.threads[t], c).0;
            if th.key == k && th.pc == Construct && next.pc == LeaveOk then !Present(s, k) && Present(Step(s, t, c), k)
            else if th.key == k && th.pc == EraseSwap && next.pc == ErasedOne then Present(s, k)
              && !Present(Step(s, t, c), k)
            else Present(Step(s, t, c), k) <==> Present(s, k)
  {
    var th, s' := s.threads[t], Step(s, t, c);
    var (next, e) := Act(s, th, c);
    assert ThreadOk(s, th);
    EffectCauses(s, th, c);
    StepKeeps(s, t, c);
    hide Act, ThreadOk, Moves, Inv;
    if !e.SetCell? {
      SetUnchanged(s, t, c, k);
    } else {
      WrittenKey(s, t, c, k);
      if th.key == k && th.pc == Construct && Present(s, k) {
        NobodyConstructs(s, k, t);
      }
      assert LiveAt(s, th.submap, th.idx, th.key) <==> CellOf(s, th) == Live(th.key);
      assert LiveAt(s', th.submap, th.idx, th.key) <==> e.cell == Live(th.key);
      if th.key == k && th.pc == EraseSwap && Present(s', k) {
        Erases(s, t, c, k);
      }
    }
  }

  /** Cells other than the written one hold the same keys before and after. */
  lemma WrittenKey(s: State, t: nat, c: Choice, k: Key)
    requires t < |s.threads| && CanStep(s, s.threads[t]) && CanApply(s, s.threads[t], Act(s, s.threads[t], c).1)
    requires Act(s, s.threads[t], c).1.SetCell? && AtCell(s.threads[t].pc)
    ensures var th := s.threads[t];
            forall i: nat, n: nat :: i != th.submap || n != th.idx
              ==> (LiveAt(s, i, n, k) <==> LiveAt(Step(s, t, c), i, n, k))
  {
    hide Act;
  }

  lemma SetUnchanged(s: State, t: nat, c: Choice, k: Key)
    requires Inv(s) && t < |s.threads| && CanStep(s, s.threads[t])
      && CanApply(s, s.threads[t], Act(s, s.threads[t], c).1)
    requires !Act(s, s.threads[t], c).1.SetCell?
    ensures Present(Step(s, t, c), k) <==> Present(s, k)
  {
    assert ThreadOk(s, s.threads[t]);
    EffectCauses(s, s.threads[t], c);
    var e := Act(s, s.threads[t], c).1;
    hide Act, ThreadOk, Inv;
    forall i: nat, n: nat
      ensures LiveAt(s, i, n, k) <==> LiveAt(Step(s, t, c), i, n, k)
    {
    }
  }

  lemma Erases(s: State, t: nat, c: Choice, k: Key)
    requires Inv(s) && t < |s.threads| && CanStep(s, s.threads[t]) && s.threads[t].key == k
    requires s.threads[t].pc == EraseSwap && Act(s, s.threads[t], c).1.SetCell?
    requires CanApply(s, s.threads[t], Act(s, s.threads[t], c).1)
    ensures !Present(Step(s, t, c), k)
  {
    var th, s' := s.threads[t], Step(s, t, c);
    WrittenKey(s, t, c, k);
    if Present(s', k) {
      var i: nat, n: nat :| LiveAt(s', i, n, k);
      KeyIsUnique(s, k, i, n, th.submap, th.idx);
    }
  }

  // ---- Full is final ----

  /** The next step of the thread makes an insertion return "full". */
  ghost predicate ReturnsFull(s: State, th: Thread)
  {
    && InBounds(s, th)
    && ((th.pc == Recheck && CellOf(s, th).Empty?)
        || (th.pc == ReadKey && Settled(CellOf(s, th), th.key) && LastProbe(s, th)))
  }

  /** No cell of submap i is being filled, and none will be. */
  ghost predicate Frozen(s: State, i: nat)
    requires HasMap(s, i)
  {
    forall c :: 0 <= c < Capacity(s, i) ==> !Cells(s, i)[c].Locked? && (Cells(s, i)[c].Empty? ==> Drained(s, i))
  }

  lemma {:induction false} PathIsLinear(k: Key, p: nat, capacity: nat)
    requires p < capacity
    ensures var x := Anchor(k, capacity) + p; Path(k, p, capacity) == if x < capacity then x else x - capacity
  {
    if p > 0 {
      PathIsLinear(k, p - 1, capacity);
    }
  }

  /** Linear probing visits every cell. */
  lemma PathVisits(k: Key, capacity: nat, c: nat) returns (p: nat)
    requires c < capacity
    ensures p < capacity && Path(k, p, capacity) == c
  {
    var a := Anchor(k, capacity);
    p := if a <= c then c - a else c + capacity - a;
    PathIsLinear(k, p, capacity);
  }

  /** Nobody is left who could fill a cell of a drained submap. */
  lemma DrainedIsFrozen(s: State, i: nat)
    requires CellsOk(s) && i < NUM_SUB_MAPS && HasMap(s, i) && Drained(s, i)
    ensures Frozen(s, i)
  {
    hide Reached, ClosedBelow;
    forall c: nat | c < Capacity(s, i)
      ensures !Cells(s, i)[c].Locked?
    {
      assert CellOk(s, i, c);
    }
  }

  /** A path of settled cells visits every cell. */
  lemma SettledIsFrozen(s: State, i: nat, k: Key)
    requires HasMap(s, i) && Passed(Cells(s, i), k, Capacity(s, i))
    ensures Frozen(s, i)
  {
    hide Drained;
    forall c: nat | c < Capacity(s, i)
      ensures Settled(Cells(s, i)[c], k)
    {
      var p := PathVisits(k, Capacity(s, i), c);
    }
  }

  lemma FullIsFrozen(s: State, t: nat)
    requires Inv(s) && t < |s.threads| && ReturnsFull(s, s.threads[t])
    ensures Frozen(s, s.threads[t].submap)
  {
    var th := s.threads[t];
    assert ThreadOk(s, th);
    hide Frozen, Drained, ClosedBelow, CellsOk, CountersOk, OwnersApart;
    if th.pc == ReadKey {
      SettledIsFrozen(s, th.submap, th.key);
    } else {
      DrainedIsFrozen(s, th.submap);
    }
  }

  /** From one state to a later one, the submap's empty cells stay empty, no other cell becomes empty,
      and every key that lives there has lived there before. */
  ghost predicate OnlyErasures(s: State, s': State, i: nat)
    requires HasMap(s, i)
  {
    && HasMap(s', i) && Capacity(s', i) == Capacity(s, i)
    && forall c :: 0 <= c < Capacity(s, i) ==>
         && (Cells(s', i)[c].Empty? <==> Cells(s, i)[c].Empty?)
         && (Cells(s', i)[c].Live? ==> Cells(s', i)[c] == Cells(s, i)[c])
  }

  lemma FrozenStep(s: State, s': State, i: nat)
    requires Moves(s, s') && i < NUM_SUB_MAPS && HasMap(s, i) && Frozen(s, i)
    ensures HasMap(s', i) && Frozen(s', i) && OnlyErasures(s, s', i)
  {
    assert SubMoves(s, s', i);
    hide Drained;
    forall c | 0 <= c < Capacity(s, i)
      ensures !Cells(s', i)[c].Locked? && (Cells(s', i)[c].Empty? ==> Drained(s', i))
      ensures (Cells(s', i)[c].Empty? <==> Cells(s, i)[c].Empty?)
        && (Cells(s', i)[c].Live? ==> Cells(s', i)[c] == Cells(s, i)[c])
    {
      assert CellMoves(Cells(s, i)[c], Cells(s', i)[c]);
    }
  }

  lemma {:induction false} FrozenRun(r: seq<State>, m: nat, n: nat, i: nat)
    requires Run(r) && m <= n < |r| && i < NUM_SUB_MAPS && HasMap(r[m], i) && Frozen(r[m], i)
    ensures HasMap(r[n], i) && Frozen(r[n], i) && OnlyErasures(r[m], r[n], i)
    decreases n
  {
    if m < n {
      hide Run, Frozen, OnlyErasures, Moves;
      FrozenRun(r, m, n - 1, i);
      RunMoves(r, n - 1);
      FrozenStep(r[n - 1], r[n], i);
      OnlyErasuresTwice(r[m], r[n - 1], r[n], i);
    }
  }

  lemma RunMoves(r: seq<State>, n: nat)
    requires Run(r) && n + 1 < |r|
    ensures Moves(r[n], r[n + 1])
  {
    hide Inv, Moves;
    Reachable(r, n);
    assert Follows(r, n);
    NextKeeps(r[n], r[n + 1]);
  }

  lemma OnlyErasuresTwice(s: State, s': State, s'': State, i: nat)
    requires i < NUM_SUB_MAPS && HasMap(s, i) && HasMap(s', i) && HasMap(s'', i)
    requires OnlyErasures(s, s', i) && OnlyErasures(s', s'', i)
    ensures OnlyErasures(s, s'', i)
  {
  }

  /** Once an insertion has found a submap full, no key ever comes into that submap again. */
  lemma FullIsFinal(r: seq<State>, m: nat, n: nat, t: nat)
    requires Run(r) && m <= n < |r| && t < |r[m].threads| && ReturnsFull(r[m], r[m].threads[t])
    ensures OnlyErasures(r[m], r[n], r[m].threads[t].submap)
  {
    Reachable(r, m);
    FullIsFrozen(r[m], t);
    FrozenRun(r, m, n, r[m].threads[t].submap);
  }

  // ---- Operations take effect at one moment between their start and their end ----

  predicate ReportsAbsent(pc: Pc)
  {
    pc == Missed || pc == ErasedNone || pc == OutOfMaps
  }

  predicate ReportsPresent(pc: Pc)
  {
    pc == Found || pc == Collided || pc == ErasedOne
  }

  predicate Started(th: Thread)
  {
    th.pc == LoadMaps || th.pc == EraseMaps || (th.pc == FindCell && th.submap == 0 && th.probes == 0)
  }

  /** From state a to state b, thread t carries out one operation, and in state b it has its result. */
  ghost predicate Operation(r: seq<State>, t: nat, a: nat, b: nat)
  {
    && Run(r) && a < b < |r| && t < |r[0].threads|
    && (forall n :: 0 <= n < |r| ==> |r[n].threads| == |r[0].threads|)
    && Started(r[a].threads[t])
    && (forall n :: a <= n < b ==> !Finished(r[n].threads[t].pc))
    && Finished(r[b].threads[t].pc)
  }

  /** What the set of keys is like, and what it does, at the moment to which a result belongs. */
  ghost predicate Justifies(s: State, s': State, t: nat, k: Key, result: Pc)
    requires t < |s.threads| && t < |s'.threads|
  {
    match result
    case Found => Present(s, k)
    case Missed => !Present(s, k)
    case Inserted => s.threads[t].pc == Construct && s'.threads[t].pc == LeaveOk && !Present(s, k) && Present(s', k)
    case Collided => Present(s, k)
    case OutOfMaps => !Present(s, k)
    case ErasedOne => s.threads[t].pc == EraseSwap && s'.threads[t].pc == ErasedOne && Present(s, k) && !Present(s', k)
    case ErasedNone => !Present(s, k)
    case _ => true
  }

  /** A live cell of key k that the thread has not gone past. */
  ghost predicate Ahead(s: State, th: Thread, i: nat, c: nat)
    requires HasMap(s, i)
  {
    match th.pc
    case FindCell => (th.submap == 0 || i < th.next) && NotBehind(s, th, i, c)
    case FindMaps => 0 < i
    case EraseCell => i < th.next && NotBehind(s, th, i, c)
    case EraseSwap => i == th.submap && c == th.idx
    case _ => InsertingInto(th.pc) || Growing(th.pc) ==> i < th.next
  }

  ghost predicate NotBehind(s: State, th: Thread, i: nat, c: nat)
    requires HasMap(s, i)
  {
    th.submap < i || (th.submap == i && forall q: nat :: q < th.probes ==> Path(th.key, q, Capacity(s, i)) != c)
  }

  /** A probe that does not see the live cell goes on towards it. */
  lemma ProbeMisses(s: State, th: Thread, i: nat, c: nat)
    requires Inv(s) && LiveAt(s, i, c, th.key) && ThreadOk(s, th) && AtCell(th.pc) && NotBehind(s, th, i, c)
    requires CellOf(s, th) != Live(th.key)
    ensures CellOf(s, th).Empty? || CellOf(s, th).Locked? || LastProbe(s, th) ==> th.submap < i
    ensures !LastProbe(s, th) ==> NotBehind(s, Advance(s, th, th.pc), i, c)
  {
    hide ClosedBelow, OwnersApart, CountersOk, ThreadsOk;
    if th.submap == i {
      assert CellOk(s, i, c);
      var cells, k := Cells(s, i), th.key;
      var p: nat :| p < |cells| && Path(k, p, |cells|) == c && Passed(cells, k, p);
      NotProbed(k, p, th.probes, |cells|, c);
      assert Settled(cells[Path(k, th.probes, |cells|)], k);
    }
  }

  lemma NotProbed(k: Key, p: nat, probes: nat, capacity: nat, c: nat)
    requires capacity > 0 && Path(k, p, capacity) == c && forall q: nat :: q < probes ==> Path(k, q, capacity) != c
    ensures probes <= p
  {
  }

  /** An operation on a key that stays where it is does not go past it, and does not report it absent. */
  lemma AheadStep(s: State, t: nat, ch: Choice, i: nat, c: nat)
    requires Inv(s) && t < |s.threads| && CanStep(s, s.threads[t]) && !Finished(s.threads[t].pc)
    requires LiveAt(s, i, c, s.threads[t].key) && Ahead(s, s.threads[t], i, c)
    ensures var next := Act(s, s.threads[t], ch).0;
            next.key == s.threads[t].key && Ahead(s, next, i, c) && !ReportsAbsent(next.pc)
  {
    var th := s.threads[t];
    assert ThreadOk(s, th) && CellOk(s, i, c);
    if th.pc == FindCell || th.pc == EraseCell {
      if CellOf(s, th) == Live(th.key) {
        KeyIsUnique(s, th.key, i, c, th.submap, th.idx);
      } else {
        ProbeMisses(s, th, i, c);
      }
      hide Inv, Passed, Drained, ClosedBelow, ThreadOk;
      SearchAhead(s, th, ch, i, c);
    } else {
      if th.pc == CheckGrowth && i < th.next {
        ClosedMeansAbsent(s, i, th.key, c);
      }
      hide Inv, Passed, Drained, ClosedBelow, ThreadOk, Reached, Closed;
      OtherAhead(s, th, ch, i, c);
    }
  }

  lemma SearchAhead(s: State, th: Thread, ch: Choice, i: nat, c: nat)
    requires CanStep(s, th) && (th.pc == FindCell || th.pc == EraseCell) && HasMap(s, i) && i < s.numMaps
      && Ahead(s, th, i, c)
    requires if CellOf(s, th) == Live(th.key) then th.submap == i && th.idx == c
             else && (CellOf(s, th).Empty? || CellOf(s, th).Locked? || LastProbe(s, th) ==> th.submap < i)
                  && (!LastProbe(s, th) ==> NotBehind(s, Advance(s, th, th.pc), i, c))
    ensures var next := Act(s, th, ch).0;
            next.key == th.key && Ahead(s, next, i, c) && !ReportsAbsent(next.pc)
  {
  }

  lemma OtherAhead(s: State, th: Thread, ch: Choice, i: nat, c: nat)
    requires CanStep(s, th) && !Finished(th.pc) && th.pc != FindCell && th.pc != EraseCell
    requires HasMap(s, i) && i < s.numMaps && Ahead(s, th, i, c)
    requires th.pc == EraseSwap ==> CellOf(s, th) == Live(th.key)
    requires th.pc != CheckGrowth
    ensures var next := Act(s, th, ch).0;
            next.key == th.key && Ahead(s, next, i, c) && !ReportsAbsent(next.pc)
  {
  }

  /** A key that is present before and after a step has not moved. */
  lemma LiveStays(s: State, s': State, i: nat, c: nat, k: Key)
    requires Inv(s) && Next(s, s') && LiveAt(s, i, c, k) && Present(s', k)
    ensures LiveAt(s', i, c, k)
  {
    hide Passed, ClosedBelow, Drained, Act, CellsOk, CountersOk, OwnersApart, Shaped;
    var t: nat, ch: Choice :| t < |s.threads| && CanStep(s, s.threads[t]) && s' == Step(s, t, ch);
    StepOnSet(s, t, ch, k);
    StepKeeps(s, t, ch);
    assert ThreadOk(s, s.threads[t]);
    EffectCauses(s, s.threads[t], ch);
    assert SubMoves(s, s', i);
    hide Inv, ThreadOk, Moves;
  }

  /** The thread's part of a step: its own, or nothing. */
  lemma ThreadPart(s: State, s': State, t: nat) returns (mine: bool, c: Choice)
    requires Inv(s) && Next(s, s') && t < |s.threads|
    ensures CanStep(s, s.threads[t]) && |s'.threads| == |s.threads|
    ensures mine ==> s' == Step(s, t, c) && s'.threads[t] == Act(s, s.threads[t], c).0
    ensures !mine ==> s'.threads[t] == s.threads[t]
  {
    var u: nat, ch: Choice :| u < |s.threads| && CanStep(s, s.threads[u]) && s' == Step(s, u, ch);
    assert ThreadOk(s, s.threads[t]);
    mine, c := u == t, ch;
  }

  lemma RunStep(r: seq<State>, n: nat)
    requires Run(r) && n + 1 < |r|
    ensures Inv(r[n]) && Inv(r[n + 1]) && Next(r[n], r[n + 1]) && Moves(r[n], r[n + 1])
    ensures |r[n].threads| == |r[n + 1].threads| == |r[0].threads|
  {
    Reachable(r, n);
    Reachable(r, n + 1);
    assert Follows(r, n);
    NextKeeps(r[n], r[n + 1]);
  }

  /** One step of a run during an operation of thread t. */
  lemma OperationStep(r: seq<State>, t: nat, a: nat, b: nat, n: nat) returns (mine: bool, c: Choice)
    requires Operation(r, t, a, b) && a <= n < b
    ensures Inv(r[n]) && Next(r[n], r[n + 1]) && Moves(r[n], r[n + 1])
    ensures PartOf(r[n], r[n + 1], t, mine, c) && (mine ==> r[n + 1] == Step(r[n], t, c))
  {
    RunStep(r, n);
    mine, c := ThreadPart(r[n], r[n + 1], t);
    hide Inv, Next, Moves, CanStep, Step, Act, Run;
  }

  lemma {:induction false} KeyKept(r: seq<State>, t: nat, a: nat, b: nat, n: nat)
    requires Operation(r, t, a, b) && a <= n <= b
    ensures r[n].threads[t].key == r[a].threads[t].key
    decreases n
  {
    hide Inv, Next, Run, Moves, Step, Act, CanStep, Finished;
    if a < n {
      KeyKept(r, t, a, b, n - 1);
      var mine, c := OperationStep(r, t, a, b, n - 1);
      if mine {
        ActKeepsKey(r[n - 1], r[n - 1].threads[t], c);
      }
    }
  }

  lemma ActKeepsKey(s: State, th: Thread, c: Choice)
    requires CanStep(s, th) && !Finished(th.pc)
    ensures Act(s, th, c).0.key == th.key
  {
  }

  /** What a thread's part of a step becomes. */
  ghost predicate PartOf(s: State, s': State, t: nat, mine: bool, c: Choice)
  {
    && t < |s.threads| && t < |s'.threads| && CanStep(s, s.threads[t]) && !Finished(s.threads[t].pc)
    && s'.threads[t] == if mine then Act(s, s.threads[t], c).0 else s.threads[t]
  }

  lemma PartStaysAhead(s: State, s': State, t: nat, mine: bool, ch: Choice, i: nat, c: nat)
    requires Inv(s) && PartOf(s, s', t, mine, ch) && Moves(s, s')
    requires LiveAt(s, i, c, s.threads[t].key) && Ahead(s, s.threads[t], i, c)
    ensures HasMap(s', i) && Ahead(s', s'.threads[t], i, c) && !ReportsAbsent(s'.threads[t].pc)
  {
    assert SubMoves(s, s', i);
    AlreadyUnfinished(s.threads[t].pc);
    hide Inv, Moves, Ahead, Act, CanStep, Finished;
    if mine {
      AheadStep(s, t, ch, i, c);
    }
    AheadKept(s, s', s'.threads[t], i, c);
  }

  /** If the key is present all the time, the operation stays ahead of it to the end. */
  lemma {:induction false} StaysAhead(r: seq<State>, t: nat, a: nat, b: nat, n: nat, i: nat, c: nat)
    requires Operation(r, t, a, b) && a <= n <= b
    requires LiveAt(r[a], i, c, r[a].threads[t].key)
    requires forall m :: a <= m < b ==> Present(r[m], r[a].threads[t].key)
    ensures n < b ==> LiveAt(r[n], i, c, r[a].threads[t].key)
    ensures HasMap(r[n], i) && Ahead(r[n], r[n].threads[t], i, c) && !ReportsAbsent(r[n].threads[t].pc)
    decreases n
  {
    hide Inv, Next, Run, Moves, Ahead, Step, Act, CanStep, Finished, Present, PartOf;
    var k := r[a].threads[t].key;
    if n == a {
      Reachable(r, a);
      StartsAhead(r[a], r[a].threads[t], i, c);
    } else {
      hide LiveAt, Started, ReportsAbsent;
      StaysAhead(r, t, a, b, n - 1, i, c);
      KeyKept(r, t, a, b, n - 1);
      var mine, ch := OperationStep(r, t, a, b, n - 1);
      var s, s' := r[n - 1], r[n];
      if n < b {
        LiveStays(s, s', i, c, k);
      }
      PartStaysAhead(s, s', t, mine, ch, i, c);
    }
  }

  lemma StartsAhead(s: State, th: Thread, i: nat, c: nat)
    requires Inv(s) && LiveAt(s, i, c, th.key) && Started(th)
    ensures Ahead(s, th, i, c)
  {
  }

  lemma AheadKept(s: State, s': State, th: Thread, i: nat, c: nat)
    requires HasMap(s, i) && HasMap(s', i) && Capacity(s, i) == Capacity(s', i) && Ahead(s, th, i, c)
    ensures Ahead(s', th, i, c)
  {
  }

  lemma AlreadyUnfinished(pc: Pc)
    requires !Finished(pc)
    ensures !ReportsAbsent(pc) && !ReportsPresent(pc) && pc != Inserted
  {
  }

  /** An operation on a key that is present all the time never reports it absent. */
  lemma NeverMissed(r: seq<State>, t: nat, a: nat, b: nat)
    requires Operation(r, t, a, b)
    requires forall m :: a <= m < b ==> Present(r[m], r[a].threads[t].key)
    ensures !ReportsAbsent(r[b].threads[t].pc)
  {
    hide Inv, Next, Run, Moves, Ahead, Step, Act, CanStep, Finished, PartOf, Started, LiveAt, ReportsAbsent;
    assert Present(r[a], r[a].threads[t].key);
    var i: nat, c: nat :| LiveAt(r[a], i, c, r[a].threads[t].key);
    StaysAhead(r, t, a, b, b, i, c);
  }

  /** The moment at which a successful insertion puts its key into the map. */
  lemma {:induction false} InsertionPoint(r: seq<State>, t: nat, a: nat, b: nat, n: nat) returns (j: nat)
    requires Operation(r, t, a, b) && a <= n <= b && Unlocked(r[n].threads[t].pc)
    ensures a <= j < n && r[j].threads[t].pc == Construct && r[j + 1].threads[t].pc == LeaveOk
    ensures !Present(r[j], r[a].threads[t].key) && Present(r[j + 1], r[a].threads[t].key)
    decreases n
  {
    hide *;
    OperationBegins(r, t, a, b, n);
    KeyKept(r, t, a, b, n - 1);
    var mine, ch := OperationStep(r, t, a, b, n - 1);
    PartInserts(r[n - 1], r[n], t, mine, ch, r[a].threads[t].key);
    if Unlocked(r[n - 1].threads[t].pc) {
      j := InsertionPoint(r, t, a, b, n - 1);
    } else {
      j := n - 1;
    }
  }

  lemma OperationBegins(r: seq<State>, t: nat, a: nat, b: nat, n: nat)
    requires Operation(r, t, a, b) && a <= n <= b && Unlocked(r[n].threads[t].pc)
    ensures a < n < |r| && t < |r[a].threads| && t < |r[n - 1].threads|
  {
    hide Run, Finished;
  }

  /** A thread past the unlocking of its cell was there before the step, or has just unlocked it. */
  lemma PartInserts(s: State, s': State, t: nat, mine: bool, c: Choice, k: Key)
    requires Inv(s) && PartOf(s, s', t, mine, c) && (mine ==> s' == Step(s, t, c)) && s.threads[t].key == k
    requires Unlocked(s'.threads[t].pc)
    ensures Unlocked(s.threads[t].pc)
            || (s.threads[t].pc == Construct && s'.threads[t].pc == LeaveOk && !Present(s, k) && Present(s', k))
  {
    if mine {
      if s.threads[t].pc == Construct {
        StepOnSet(s, t, c, k);
        AfterConstruct(s, s.threads[t], c);
      } else {
        AfterUnlock(s, s.threads[t], c);
      }
      hide Inv, Present, Act, Step, CanStep;
    }
  }

  predicate Unlocked(pc: Pc)
  {
    pc == LeaveOk || pc == MarkFull || pc == Inserted
  }

  lemma AfterConstruct(s: State, th: Thread, c: Choice)
    requires CanStep(s, th) && th.pc == Construct
    ensures Act(s, th, c).0.pc == LeaveOk || Act(s, th, c).0.pc == LeaveThrow
  {
  }

  lemma AfterUnlock(s: State, th: Thread, c: Choice)
    requires CanStep(s, th) && Unlocked(Act(s, th, c).0.pc) && th.pc != Construct
    ensures Unlocked(th.pc)
  {
  }

  /** The last step of a search that found its key, or of an erase that removed it. */
  lemma LastStep(s: State, t: nat, c: Choice)
    requires Inv(s) && t < |s.threads| && CanStep(s, s.threads[t]) && !Finished(s.threads[t].pc)
    ensures var s', k, next := Step(s, t, c), s.threads[t].key, Act(s, s.threads[t], c).0;
            && (ReportsPresent(next.pc) ==> Present(s, k))
            && (next.pc == ErasedOne ==> s.threads[t].pc == EraseSwap && Present(s, k) && !Present(s', k))
  {
    hide ThreadOk, Step;
    var th := s.threads[t];
    assert ThreadOk(s, th);
    if AtCell(th.pc) && CellOf(s, th) == Live(th.key) {
      assert LiveAt(s, th.submap, th.idx, th.key);
    }
    StepOnSet(s, t, c, th.key);
    hide Inv, LiveAt, Present, ThreadOk;
  }

  lemma ResultNames(pc: Pc)
    ensures ReportsAbsent(pc) <==> pc == Missed || pc == ErasedNone || pc == OutOfMaps
    ensures ReportsPresent(pc) <==> pc == Found || pc == Collided || pc == ErasedOne
  {
  }

  lemma LastMoment(r: seq<State>, t: nat, a: nat, b: nat)
    requires Operation(r, t, a, b) && !ReportsAbsent(r[b].threads[t].pc) && r[b].threads[t].pc != Inserted
    ensures Justifies(r[b - 1], r[b], t, r[a].threads[t].key, r[b].threads[t].pc)
  {
    hide Inv, Next, Run, Moves, Present, Step, Act, CanStep, Finished, Started, Justifies, ReportsAbsent, PartOf;
    KeyKept(r, t, a, b, b - 1);
    var mine, ch := OperationStep(r, t, a, b, b - 1);
    PartJustifies(r[b - 1], r[b], t, mine, ch);
  }

  lemma PartJustifies(s: State, s': State, t: nat, mine: bool, c: Choice)
    requires Inv(s) && PartOf(s, s', t, mine, c) && (mine ==> s' == Step(s, t, c))
    requires !ReportsAbsent(s'.threads[t].pc) && s'.threads[t].pc != Inserted
    ensures Justifies(s, s', t, s.threads[t].key, s'.threads[t].pc)
  {
    AlreadyUnfinished(s.threads[t].pc);
    hide Inv, Present, Step, Act, CanStep, Finished, ReportsPresent, ReportsAbsent;
    if mine {
      LastStep(s, t, c);
    }
    ResultNames(s'.threads[t].pc);
  }

  /** Every operation takes effect at one moment between its start and its end: there the set of keys is as
      its result says, and only successful insertions and erases change the set, at that moment. */
  lemma Linearizable(r: seq<State>, t: nat, a: nat, b: nat) returns (j: nat)
    requires Operation(r, t, a, b)
    ensures a <= j < b && Justifies(r[j], r[j + 1], t, r[a].threads[t].key, r[b].threads[t].pc)
  {
    hide Inv, Next, Run, Moves, Present, Step, Act, CanStep, Finished, Started;
    if r[b].threads[t].pc == Inserted {
      j := InsertionPoint(r, t, a, b, b);
    } else if ReportsAbsent(r[b].threads[t].pc) {
      var k := r[a].threads[t].key;
      if forall m :: a <= m < b ==> Present(r[m], k) {
        NeverMissed(r, t, a, b);
      }
      j :| a <= j < b && !Present(r[j], k);
    } else {
      LastMoment(r, t, a, b);
      j := b - 1;
    }
  }
}
