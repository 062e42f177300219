/** The debug checks of the source: those that always hold, and the one that holds as long as nothing throws. */
module AtomicHashChecks {
  import opened AtomicHash
  import opened AtomicHashInvariant
  import opened AtomicHashRuns

  /** The checks on indices, on locked and on freshly filled cells, and on the table of submaps never fail. */
  lemma ChecksHold(r: seq<State>, n: nat, t: nat)
    requires Run(r) && n < |r| && t < |r[n].threads|
    ensures var s, th := r[n], r[n].threads[t];
            && (AtCell(th.pc) ==> InBounds(s, th))
            && (th.pc == Construct ==> CellOf(s, th) == Locked)
            && (th.pc == LeaveOk ==> CellOf(s, th) == Live(th.key) || CellOf(s, th) == Erased)
            && (th.pc == AllocateMap ==> th.next < |s.slots| && s.slots[th.next] == LockedSlot)
            && (th.pc == PublishMap ==> th.next == s.numMaps && HasMap(s, th.next))
  {
    Reachable(r, n);
    assert ThreadOk(r[n], r[n].threads[t]);
  }

  /** The check that a cell is not empty when a thread goes on to compare its key. */
  ghost predicate ComparesFilled(s: State)
  {
    forall t :: 0 <= t < |s.threads| && InBounds(s, s.threads[t])
      && (s.threads[t].pc == AwaitUnlock || s.threads[t].pc == LeaveLost)
      ==> !CellOf(s, s.threads[t]).Empty?
  }

  ghost predicate NobodyThrew(s: State)
  {
    forall t :: 0 <= t < |s.threads| ==> s.threads[t].pc != LeaveThrow
  }

  lemma FilledStep(s: State, s': State)
    requires Inv(s) && Next(s, s') && ComparesFilled(s) && NobodyThrew(s')
    ensures ComparesFilled(s')
  {
    hide Passed, ClosedBelow, Drained, CellsOk, CountersOk, OwnersApart, Moves, Shaped;
    var t: nat, c: Choice :| t < |s.threads| && CanStep(s, s.threads[t]) && s' == Step(s, t, c);
    forall u | 0 <= u < |s'.threads| && InBounds(s', s'.threads[u])
      && (s'.threads[u].pc == AwaitUnlock || s'.threads[u].pc == LeaveLost)
      ensures !CellOf(s', s'.threads[u]).Empty?
    {
      assert s'.threads[t].pc != LeaveThrow;
      if u == t {
        ComesFilled(s, s.threads[t], c);
      } else {
        OtherFilled(s, t, c, u);
      }
    }
  }

  lemma ComesFilled(s: State, th: Thread, c: Choice)
    requires ThreadOk(s, th)
    requires var next := Act(s, th, c).0; next.pc == AwaitUnlock || next.pc == LeaveLost
    requires th.pc == AwaitUnlock || th.pc == LeaveLost ==> !CellOf(s, th).Empty?
    ensures var (next, e) := Act(s, th, c); SameCell(th, next) && !e.SetCell? && AtCell(th.pc) && !CellOf(s, th).Empty?
  {
  }

  lemma OtherFilled(s: State, t: nat, c: Choice, u: nat)
    requires t < |s.threads| && u < |s.threads| && u != t && ThreadOk(s, s.threads[t]) && ThreadOk(s, s.threads[u])
    requires AtCell(s.threads[u].pc) && !CellOf(s, s.threads[u]).Empty? && Act(s, s.threads[t], c).0.pc != LeaveThrow
    ensures InBounds(Step(s, t, c), s.threads[u]) ==> !CellOf(Step(s, t, c), s.threads[u]).Empty?
  {
    EffectCauses(s, s.threads[t], c);
    hide Passed, ClosedBelow, Drained, Act;
  }

  /** As long as no value's constructor throws, the check holds. */
  lemma {:induction false} FilledWithoutThrows(r: seq<State>, n: nat)
    requires Run(r) && n < |r| && forall m :: 0 <= m <= n ==> NobodyThrew(r[m])
    ensures ComparesFilled(r[n])
  {
    hide Inv, Next, Run, Moves, NobodyThrew, ComparesFilled;
    if n == 0 {
      StartsFilled(r);
    } else {
      FilledWithoutThrows(r, n - 1);
      RunStep(r, n - 1);
      FilledStep(r[n - 1], r[n]);
    }
  }

  lemma StartsFilled(r: seq<State>)
    requires Run(r)
    ensures ComparesFilled(r[0])
  {
  }

  lemma Extend(r: seq<State>, t: nat, c: Choice) returns (r': seq<State>)
    requires Run(r) && t < |r[|r| - 1].threads|
    ensures CanStep(r[|r| - 1], r[|r| - 1].threads[t])
    ensures r' == r + [Step(r[|r| - 1], t, c)] && Run(r')
  {
    var last := |r| - 1;
    Reachable(r, last);
    assert ThreadOk(r[last], r[last].threads[t]);
    r' := r + [Step(r[last], t, c)];
    forall n: nat | n + 1 < |r'|
      ensures Follows(r', n)
    {
      if n < last {
        assert Follows(r, n);
      }
    }
  }

  /** One cell, two threads. */
  function Scene(cell: Cell, pending: int, th: Thread, th': Thread): State
  {
    State([Ready(SubMap([cell], 0, pending))] + seq(15, _ => NullSlot), 1, [th, th'])
  }

  function At(pc: Pc, k: Key): Thread
  {
    Thread(pc, k, if pc == Idle || pc == LoadMaps then 0 else 1, 0, 0, 0)
  }

  lemma SceneStep(cell: Cell, pending: int, k: Key, th: Thread, th': Thread, c: Choice, first: bool)
    requires k.hash == 0 && CanStep(Scene(cell, pending, th, th'), if first then th else th')
    ensures var s := Scene(cell, pending, th, th');
            var mine := if first then th else th';
            var (next, e) := Act(s, mine, c);
            (e.NoEffect? || (e.AddPending? && mine.submap == 0) || (e.SetCell? && mine.submap == mine.idx == 0)) ==>
              Step(s, if first then 0 else 1, c)
              == Scene(if e.SetCell? then e.cell else cell, if e.AddPending? then pending + e.delta else pending,
                       if first then next else th, if first then th' else next)
  {
    var s := Scene(cell, pending, th, th');
    var (next, e) := Act(s, if first then th else th', c);
    hide Act;
    if e.AddPending? {
      assert s.slots[0 := Ready(SubMap([cell], 0, pending + e.delta))]
          == [Ready(SubMap([cell], 0, pending + e.delta))] + seq(15, _ => NullSlot);
    } else if e.SetCell? {
      assert [cell][0 := e.cell] == [e.cell];
      assert s.slots[0 := Ready(SubMap([e.cell], 0, pending))]
          == [Ready(SubMap([e.cell], 0, pending))] + seq(15, _ => NullSlot);
    }
  }

  const FAIL := Choice(Insert, Key(0, 0), true, 0)

  function Inserting(k: Key): Choice
  {
    Choice(Insert, k, false, 0)
  }

  ghost predicate EndsIn(r: seq<State>, s: State)
  {
    r != [] && r[|r| - 1] == s
  }

  /** One thread moves on, the other stays. */
  lemma Play(r: seq<State>, cell: Cell, pending: int, k: Key, th: Thread, th': Thread, c: Choice, first: bool)
    returns (r': seq<State>)
    requires Run(r) && EndsIn(r, Scene(cell, pending, th, th')) && k.hash == 0
    requires CanStep(Scene(cell, pending, th, th'), if first then th else th')
    requires var mine := if first then th else th'; mine.submap == mine.idx == 0
    requires var e := Act(Scene(cell, pending, th, th'), if first then th else th', c).1;
             e.NoEffect? || e.AddPending? || e.SetCell?
    ensures var (next, e) := Act(Scene(cell, pending, th, th'), if first then th else th', c);
            && Run(r')
            && EndsIn(r', Scene(if e.SetCell? then e.cell else cell,
                                if e.AddPending? then pending + e.delta else pending,
                                if first then next else th, if first then th' else next))
  {
    SceneStep(cell, pending, k, th, th', c, first);
    hide Act, Scene;
    r' := Extend(r, if first then 0 else 1, c);
  }

  /** What a thread does that comes up to locking the empty cell. */
  function TowardsLock(pc: Pc): Pc
  {
    match pc
    case Idle => LoadMaps
    case LoadMaps => LoadCell
    case LoadCell => EnterPending
    case EnterPending => CheckFull
    case _ => TryLock
  }

  function Pair(pending: int, th: Thread, other: Thread, first: bool): State
  {
    if first then Scene(Empty, pending, th, other) else Scene(Empty, pending, other, th)
  }

  lemma StepsToLock(pending: int, k: Key, pc: Pc, other: Thread, first: bool)
    requires k.hash == 0 && pc in {Idle, LoadMaps, LoadCell, EnterPending, CheckFull}
    ensures var s := Pair(pending, At(pc, k), other, first);
            && CanStep(s, At(pc, k))
            && Act(s, At(pc, k), Inserting(k))
               == (At(TowardsLock(pc), k), if pc == EnterPending then AddPending(1) else NoEffect)
  {
    assert Anchor(k, 1) == 0;
  }

  lemma PlayToLock(r: seq<State>, pending: int, k: Key, pc: Pc, other: Thread, first: bool) returns (r': seq<State>)
    requires Run(r) && k.hash == 0 && pc in {Idle, LoadMaps, LoadCell, EnterPending, CheckFull}
    requires EndsIn(r, Pair(pending, At(pc, k), other, first))
    ensures Run(r')
    ensures EndsIn(r', Pair(if pc == EnterPending then pending + 1 else pending, At(TowardsLock(pc), k), other, first))
  {
    hide Run, EndsIn, Act, Scene, CanStep, TowardsLock;
    StepsToLock(pending, k, pc, other, first);
    var th := At(pc, k);
    r' := Play(r, Empty, pending, k, if first then th else other, if first then other else th, Inserting(k), first);
  }

  /** A thread that wants to insert a key into the empty cell comes up to locking it. */
  lemma ComeToLock(r: seq<State>, pending: int, k: Key, other: Thread, first: bool) returns (r': seq<State>)
    requires Run(r) && k.hash == 0 && EndsIn(r, Pair(pending, At(Idle, k), other, first))
    ensures Run(r') && EndsIn(r', Pair(pending + 1, At(TryLock, k), other, first))
  {
    hide Run, EndsIn, At, Pair;
    r' := PlayToLock(r, pending, k, Idle, other, first);
    r' := PlayToLock(r', pending, k, LoadMaps, other, first);
    r' := PlayToLock(r', pending, k, LoadCell, other, first);
    r' := PlayToLock(r', pending, k, EnterPending, other, first);
    r' := PlayToLock(r', pending + 1, k, CheckFull, other, first);
  }

  /** Two threads come up to locking the same empty cell. */
  lemma BothAtLock(k: Key) returns (r: seq<State>)
    requires k.hash == 0
    ensures Run(r) && EndsIn(r, Scene(Empty, 2, At(TryLock, k), At(TryLock, k)))
  {
    hide Run, EndsIn, At, Scene;
    r := Opening(k);
    r := ComeToLock(r, 0, k, At(Idle, k), true);
    r := ComeToLock(r, 1, k, At(TryLock, k), false);
  }

  /** One of them loses the race. */
  lemma OneLoses(k: Key) returns (r: seq<State>)
    requires k.hash == 0
    ensures Run(r) && EndsIn(r, Scene(Locked, 2, At(LeaveLost, k), At(Construct, k)))
  {
    hide Run, EndsIn;
    var c := Inserting(k);
    r := BothAtLock(k);
    r := Play(r, Empty, 2, k, At(TryLock, k), At(TryLock, k), c, false);
    r := Play(r, Locked, 2, k, At(TryLock, k), At(Construct, k), c, true);
  }

  /** With one throw, the check fails: a thread loses the race for a cell, the winner's constructor throws
      and empties the cell again, and then the loser looks at it. */
  lemma CheckCanFail() returns (r: seq<State>)
    ensures Run(r)
    ensures r != []
    ensures var s := r[|r| - 1];
            0 < |s.threads| && InBounds(s, s.threads[0]) && s.threads[0].pc == AwaitUnlock
              && CellOf(s, s.threads[0]).Empty?
  {
    hide Run;
    var k := Key(7, 0);
    r := OneLoses(k);
    r := Play(r, Locked, 2, k, At(LeaveLost, k), At(Construct, k), FAIL, false);
    r := Play(r, Empty, 2, k, At(LeaveLost, k), At(LeaveThrow, k), Inserting(k), true);
  }

  lemma Opening(k: Key) returns (r: seq<State>)
    ensures Run(r) && EndsIn(r, Scene(Empty, 0, At(Idle, k), At(Idle, k)))
  {
    r := [Scene(Empty, 0, At(Idle, k), At(Idle, k))];
  }
}
