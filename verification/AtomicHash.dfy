/**
 The lock-free hash map as a state machine. Any number of threads insert, find and erase; one step of
 the machine is one atomic access of one thread to a cell, a counter, a flag or the table of submaps.
*/
module AtomicHash {

  /** Keys carry the value of their hash function. */
  datatype Key = Key(id: int, hash: nat)

  datatype Cell = Empty | Locked | Live(key: Key) | Erased

  /** One AtomicHashArray: its cells, the flag isFull_ and the counter numPendingEntries_. */
  datatype SubMap = SubMap(cells: seq<Cell>, full: nat, pending: int)

  /** One entry of the table of submaps: a null pointer, the locked pointer, or a submap. */
  datatype Slot = NullSlot | LockedSlot | Ready(sub: SubMap)

  /** Where a thread is; each value names the access that comes next. */
  datatype Pc =
    | Idle
      // inserting into the map
    | LoadMaps | CheckGrowth | LockMap | AllocateMap | PublishMap | AwaitMap
      // inserting into one submap
    | LoadCell | EnterPending | CheckFull | LeaveFull | SpinFull | SpinPending | MarkDrained | Recheck
    | TryLock | Construct | LeaveOk | MarkFull | LeaveThrow | LeaveLost | AwaitUnlock | ReadKey
      // finding and erasing
    | FindCell | FindMaps | EraseMaps | EraseCell | EraseSwap
      // results
    | Inserted | Collided | OutOfMaps | Threw | Found | Missed | ErasedOne | ErasedNone

  /** A thread's key, how many submaps it knows, and its place: submap, cell and number of probes. */
  datatype Thread = Thread(pc: Pc, key: Key, next: nat, submap: nat, idx: nat, probes: nat)

  datatype State = State(slots: seq<Slot>, numMaps: nat, threads: seq<Thread>)

  datatype Operation = Insert | Find | Erase

  /** What the step does not determine: the next operation and its key, whether a value's constructor
      throws, a counter passes its limit or growth is refused, and the size of a new submap. */
  datatype Choice = Choice(operation: Operation, key: Key, flag: bool, size: nat)

  /** What a step does to the shared memory. */
  datatype Effect =
    | NoEffect
    | SetCell(cell: Cell)
    | AddPending(delta: int)
    | SetFull(value: nat)
    | LockSlot
    | FillSlot(size: nat)
    | Publish

  const NUM_SUB_MAPS: nat := 16
  const NO_NEW_INSERTS: nat := 1
  const NO_PENDING_INSERTS: nat := 2

  // ---- Probing ----

  function NextPowTwo(n: nat, p: nat): (r: nat)
    requires p > 0
    ensures r > 0
    decreases n - p
  {
    if n <= p then p else NextPowTwo(n, 2 * p)
  }

  /** Masking with a power of two minus one is taking the remainder. */
  function Anchor(k: Key, capacity: nat): (r: nat)
    requires capacity > 0
    ensures r < capacity
  {
    var probe := k.hash % NextPowTwo(capacity, 1);
    if probe < capacity then probe else k.hash % capacity
  }

  function Probe(idx: nat, capacity: nat): (r: nat)
    requires idx < capacity
    ensures r < capacity
  {
    if idx + 1 < capacity then idx + 1 else idx + 1 - capacity
  }

  /** The cell that a thread looks at after p probes. */
  function Path(k: Key, p: nat, capacity: nat): (r: nat)
    requires capacity > 0
    ensures r < capacity
  {
    if p == 0 then Anchor(k, capacity) else Probe(Path(k, p - 1, capacity), capacity)
  }

  // ---- Reading the shared memory ----

  predicate HasMap(s: State, i: nat)
  {
    i < |s.slots| && s.slots[i].Ready? && 0 < |s.slots[i].sub.cells|
  }

  function Cells(s: State, i: nat): seq<Cell>
    requires HasMap(s, i)
  {
    s.slots[i].sub.cells
  }

  function Capacity(s: State, i: nat): (r: nat)
    requires HasMap(s, i)
    ensures r > 0
  {
    |s.slots[i].sub.cells|
  }

  predicate InBounds(s: State, th: Thread)
  {
    HasMap(s, th.submap) && th.idx < Capacity(s, th.submap)
  }

  function CellOf(s: State, th: Thread): Cell
    requires InBounds(s, th)
  {
    Cells(s, th.submap)[th.idx]
  }

  // ---- The steps ----

  /** The program counters of an insertion into one submap. */
  predicate InsertingInto(pc: Pc)
  {
    pc in {LoadCell, EnterPending, CheckFull, LeaveFull, SpinFull, SpinPending, MarkDrained, Recheck,
           TryLock, Construct, LeaveOk, MarkFull, LeaveThrow, LeaveLost, AwaitUnlock, ReadKey}
  }

  /** The program counters that stand for a result. */
  predicate Finished(pc: Pc)
  {
    pc in {Idle, Inserted, Collided, OutOfMaps, Threw, Found, Missed, ErasedOne, ErasedNone}
  }

  /** The program counters that look at one cell. */
  predicate AtCell(pc: Pc)
  {
    InsertingInto(pc) || pc in {FindCell, EraseCell, EraseSwap}
  }

  predicate Growing(pc: Pc)
  {
    pc in {CheckGrowth, LockMap, AllocateMap, PublishMap, AwaitMap}
  }

  /** What a thread's next step takes for granted about the shared memory. */
  predicate CanStep(s: State, th: Thread)
  {
    && |s.slots| == NUM_SUB_MAPS && 0 < s.numMaps <= NUM_SUB_MAPS
    && (forall i :: 0 <= i < s.numMaps ==> HasMap(s, i))
    && (AtCell(th.pc) ==> InBounds(s, th) && th.submap < s.numMaps)
    && (th.next <= s.numMaps)
    && (th.pc in {LockMap, AllocateMap, PublishMap, AwaitMap} ==> th.next < NUM_SUB_MAPS)
    && (th.pc == PublishMap ==> HasMap(s, th.next) && th.next == s.numMaps)
  }

  /** Starts at the anchor of the key in submap i. */
  function Begin(s: State, th: Thread, i: nat, pc: Pc): Thread
    requires HasMap(s, i)
  {
    th.(pc := pc, submap := i, idx := Anchor(th.key, Capacity(s, i)), probes := 0)
  }

  /** Goes on to the next cell, or learns that every cell has been probed. */
  function Advance(s: State, th: Thread, pc: Pc): Thread
    requires InBounds(s, th)
  {
    th.(pc := pc, idx := Probe(th.idx, Capacity(s, th.submap)), probes := th.probes + 1)
  }

  predicate LastProbe(s: State, th: Thread)
    requires InBounds(s, th)
  {
    th.probes + 1 >= Capacity(s, th.submap)
  }

  /** An insertion found the submap full. */
  function AfterFull(s: State, th: Thread): Thread
    requires CanStep(s, th)
  {
    if th.submap + 1 < th.next then Begin(s, th, th.submap + 1, LoadCell)
    else if th.submap + 1 == th.next then th.(pc := CheckGrowth)
    else th.(pc := LoadMaps)
  }

  /** A search found nothing in the submap. */
  function AfterMiss(s: State, th: Thread): Thread
    requires CanStep(s, th)
  {
    if th.submap == 0 then th.(pc := FindMaps)
    else if th.submap + 1 < th.next then Begin(s, th, th.submap + 1, FindCell)
    else th.(pc := Missed)
  }

  /** An erase found nothing in the submap. */
  function AfterKept(s: State, th: Thread): Thread
    requires CanStep(s, th)
  {
    if th.submap + 1 < th.next then Begin(s, th, th.submap + 1, EraseCell) else th.(pc := ErasedNone)
  }

  /** One step of a thread: where it goes and what it does to the shared memory. */
  function Act(s: State, th: Thread, c: Choice): (Thread, Effect)
    requires CanStep(s, th)
  {
    match th.pc
    case Idle => (Start(s, th, c), NoEffect)
    case LoadMaps => (Begin(s, th.(next := s.numMaps), 0, LoadCell), NoEffect)
    case CheckGrowth =>
      (th.(pc := if th.next >= NUM_SUB_MAPS || c.flag then OutOfMaps else LockMap), NoEffect)
    case LockMap =>
      if s.slots[th.next].NullSlot? then (th.(pc := AllocateMap), LockSlot) else (th.(pc := AwaitMap), NoEffect)
    case AllocateMap => (th.(pc := PublishMap), FillSlot(c.size + 1))
    case PublishMap => (Begin(s, th, th.next, LoadCell), Publish)
    case AwaitMap => (if th.next >= s.numMaps then th else Begin(s, th, th.next, LoadCell), NoEffect)
    case LoadCell => (th.(pc := if CellOf(s, th).Empty? then EnterPending else AwaitUnlock), NoEffect)
    case EnterPending => (th.(pc := CheckFull), AddPending(1))
    case CheckFull => (th.(pc := if s.slots[th.submap].sub.full != 0 then LeaveFull else TryLock), NoEffect)
    case LeaveFull => (th.(pc := SpinFull), AddPending(-1))
    case SpinFull =>
      (th.(pc := if s.slots[th.submap].sub.full == NO_PENDING_INSERTS then MarkDrained else SpinPending), NoEffect)
    case SpinPending => (th.(pc := if s.slots[th.submap].sub.pending == 0 then MarkDrained else SpinFull), NoEffect)
    case MarkDrained => (th.(pc := Recheck), SetFull(NO_PENDING_INSERTS))
    case Recheck => (if CellOf(s, th).Empty? then AfterFull(s, th) else th.(pc := AwaitUnlock), NoEffect)
    case TryLock =>
      if CellOf(s, th).Empty? then (th.(pc := Construct), SetCell(Locked)) else (th.(pc := LeaveLost), NoEffect)
    case Construct =>
      if c.flag then (th.(pc := LeaveThrow), SetCell(Empty)) else (th.(pc := LeaveOk), SetCell(Live(th.key)))
    case LeaveOk => (th.(pc := MarkFull), AddPending(-1))
    case MarkFull => (th.(pc := Inserted), if c.flag then SetFull(NO_NEW_INSERTS) else NoEffect)
    case LeaveThrow => (th.(pc := Threw), AddPending(-1))
    case LeaveLost => (th.(pc := AwaitUnlock), AddPending(-1))
    case AwaitUnlock => (if CellOf(s, th).Locked? then th else th.(pc := ReadKey), NoEffect)
    case ReadKey => (CompareInsert(s, th), NoEffect)
    case FindCell => (CompareFind(s, th), NoEffect)
    case FindMaps =>
      (if 1 < s.numMaps then Begin(s, th.(next := s.numMaps), 1, FindCell) else th.(pc := Missed), NoEffect)
    case EraseMaps => (Begin(s, th.(next := s.numMaps), 0, EraseCell), NoEffect)
    case EraseCell => (CompareErase(s, th), NoEffect)
    case EraseSwap =>
      if CellOf(s, th) == Live(th.key) then (th.(pc := ErasedOne), SetCell(Erased)) else (AfterKept(s, th), NoEffect)
    case _ => (th.(pc := Idle), NoEffect)
  }

  function Start(s: State, th: Thread, c: Choice): Thread
    requires CanStep(s, th)
  {
    var started := th.(key := c.key, next := 0);
    match c.operation
    case Insert => started.(pc := LoadMaps)
    case Find => Begin(s, started, 0, FindCell)
    case Erase => started.(pc := EraseMaps)
  }

  /** The comparison with the key of a cell that was not empty, or has been unlocked. */
  function CompareInsert(s: State, th: Thread): Thread
    requires CanStep(s, th) && InBounds(s, th)
  {
    var cell := CellOf(s, th);
    if cell == Live(th.key) then th.(pc := Collided)
    else if cell.Empty? || cell.Locked? then th.(pc := LoadCell)
    else if LastProbe(s, th) then AfterFull(s, th)
    else Advance(s, th, LoadCell)
  }

  function CompareFind(s: State, th: Thread): Thread
    requires CanStep(s, th) && InBounds(s, th)
  {
    var cell := CellOf(s, th);
    if cell == Live(th.key) then th.(pc := Found)
    else if cell.Empty? || LastProbe(s, th) then AfterMiss(s, th)
    else Advance(s, th, FindCell)
  }

  function CompareErase(s: State, th: Thread): Thread
    requires CanStep(s, th) && InBounds(s, th)
  {
    var cell := CellOf(s, th);
    if cell == Live(th.key) then th.(pc := EraseSwap)
    else if cell.Empty? || cell.Locked? || LastProbe(s, th) then AfterKept(s, th)
    else Advance(s, th, EraseCell)
  }

  function UpdateSub(s: State, i: nat, sub: SubMap): State
    requires i < |s.slots|
  {
    s.(slots := s.slots[i := Ready(sub)])
  }

  predicate CanApply(s: State, th: Thread, e: Effect)
  {
    match e
    case SetCell(_) => InBounds(s, th)
    case AddPending(_) => HasMap(s, th.submap)
    case SetFull(_) => HasMap(s, th.submap)
    case LockSlot => th.next < |s.slots|
    case FillSlot(_) => th.next < |s.slots|
    case _ => true
  }

  function Apply(s: State, th: Thread, e: Effect): State
    requires CanApply(s, th, e)
  {
    match e
    case NoEffect => s
    case SetCell(cell) =>
      var sub := s.slots[th.submap].sub;
      UpdateSub(s, th.submap, sub.(cells := sub.cells[th.idx := cell]))
    case AddPending(delta) =>
      var sub := s.slots[th.submap].sub;
      UpdateSub(s, th.submap, sub.(pending := sub.pending + delta))
    case SetFull(value) => UpdateSub(s, th.submap, s.slots[th.submap].sub.(full := value))
    case LockSlot => s.(slots := s.slots[th.next := LockedSlot])
    case FillSlot(size) => UpdateSub(s, th.next, SubMap(seq(size, _ => Empty), 0, 0))
    case Publish => s.(numMaps := s.numMaps + 1)
  }

  /** Thread t takes its next step. */
  function Step(s: State, t: nat, c: Choice): State
    requires t < |s.threads| && CanStep(s, s.threads[t])
  {
    var th := s.threads[t];
    var (next, effect) := Act(s, th, c);
    Apply(s, th, effect).(threads := s.threads[t := next])
  }

  /** A new map: one submap of empty cells, and no operation running. */
  predicate Init(s: State)
  {
    && |s.slots| == NUM_SUB_MAPS && s.numMaps == 1 && HasMap(s, 0)
    && s.slots[0].sub.full == 0 && s.slots[0].sub.pending == 0
    && (forall c :: 0 <= c < Capacity(s, 0) ==> Cells(s, 0)[c] == Empty)
    && (forall i :: 0 < i < NUM_SUB_MAPS ==> s.slots[i] == NullSlot)
    && (forall t :: 0 <= t < |s.threads| ==> s.threads[t].pc == Idle && s.threads[t].next == 0)
  }

  ghost predicate Next(s: State, s': State)
  {
    exists t: nat, c: Choice :: t < |s.threads| && CanStep(s, s.threads[t]) && s' == Step(s, t, c)
  }

  /** A run: any interleaving of the threads' steps. */
  ghost predicate Run(r: seq<State>)
  {
    && r != [] && Init(r[0])
    && forall n: nat :: n + 1 < |r| ==> Follows(r, n)
  }

  ghost predicate Follows(r: seq<State>, n: nat)
    requires n + 1 < |r|
  {
    Next(r[n], r[n + 1])
  }
}
