/**
 Several processes share one file. Every operation runs under the file lock: it first catches up with what
 the others have written, by comparing sequence number, size and checksum, and then reads or writes.
*/
module MmkvSharing {
  import opened Machine
  import opened MmkvLog
  import opened MmkvStore

  /** The checksum of the file, which can be continued over bytes that follow. */
  datatype Checksum = Checksum(start: int, extend: (int, Bytes) -> int)

  ghost predicate Continues(c: Checksum)
  {
    forall d: int, a: Bytes, b: Bytes {:trigger c.extend(d, a + b)} :: c.extend(c.extend(d, a), b) == c.extend(d, a + b)
  }

  /** The file: what the meta file says about it, the four bytes in front, and the log. */
  datatype File = File(sequence: nat, size: nat, crc: int, front: Bytes, log: seq<Record>)

  /** What a process remembers of its last look at the file. */
  datatype Process = Unloaded | Loaded(sequence: nat, size: nat, crc: int, index: map<Bytes, Holder>)

  /** The history holds all completed writes. */
  datatype World = World(file: File, processes: seq<Process>, history: seq<Record>)

  ghost function Content(f: File): Bytes
  {
    f.front + EncodeLog(f.log)
  }

  ghost predicate FileOk(c: Checksum, f: File)
  {
    && Small(f.log) && |f.front| == HOLDER_SIZE
    && (f.size == 0 ==> f.log == [] && f.crc == 0)
    && (f.size != 0 ==> f.size == End(f.log) && f.crc == c.extend(c.start, Content(f)))
  }

  // ---- Catching up ----

  function FullLoad(f: File): Process
    requires Small(f.log)
  {
    Loaded(f.sequence, f.size, f.crc, if f.size == 0 then map[] else Index(f.log))
  }

  /** Replays the records at and behind a position. */
  function ReplayFrom(log: seq<Record>, position: nat, dic: map<Bytes, Holder>): map<Bytes, Holder>
    requires Small(log)
  {
    if log == [] then dic
    else
      var before := log[..|log| - 1];
      if End(before) < position then dic else IndexStep(ReplayFrom(before, position, dic), log[|log| - 1], End(before))
  }

  ghost function PartialLoad(c: Checksum, f: File, p: Process): Process
    requires Small(f.log) && p.Loaded?
  {
    if f.size > 0 && f.size > p.size && f.size <= |Content(f)| then
      var digest := c.extend(p.crc, Content(f)[p.size..f.size]);
      if digest == f.crc then Loaded(f.sequence, f.size, digest, ReplayFrom(f.log, p.size, p.index)) else FullLoad(f)
    else FullLoad(f)
  }

  ghost function CheckLoadData(c: Checksum, f: File, p: Process): Process
    requires Small(f.log)
  {
    match p
    case Unloaded => FullLoad(f)
    case Loaded(sequence, size, crc, _) =>
      if sequence != f.sequence then FullLoad(f)
      else if crc != f.crc || size != f.size then PartialLoad(c, f, p)
      else p
  }

  // ---- Writing ----

  /** A full write-back: the live records in some order behind a new front; it gets a new sequence number. */
  ghost function WriteBack(c: Checksum, f: File, front: Bytes, vec: seq<Bytes>): File
    requires forall k :: k in vec ==> k in Contents(f.log)
  {
    var log := Compacted(vec, Contents(f.log));
    File(f.sequence + 1, End(log), c.extend(c.start, front + EncodeLog(log)), front, log)
  }

  ghost function Append(c: Checksum, f: File, r: Record): File
  {
    f.(size := f.size + |EncodeRecord(r)|, crc := c.extend(f.crc, EncodeRecord(r)), log := f.log + [r])
  }

  /** A process reads: it catches up. */
  ghost predicate Reads(c: Checksum, w: World, w': World, i: nat)
    requires Small(w.file.log) && i < |w.processes|
  {
    w' == w.(processes := w.processes[i := CheckLoadData(c, w.file, w.processes[i])])
  }

  /** A process catches up, writes everything back if it has to, and appends a record. */
  ghost predicate Writes(c: Checksum, w: World, w': World, i: nat, r: Record, back: bool, front: Bytes, vec: seq<Bytes>)
    requires Small(w.file.log) && i < |w.processes|
  {
    && Fits(r) && (w.file.size == 0 ==> back)
    && (back ==> |front| == HOLDER_SIZE && Enumerates(vec, CheckLoadData(c, w.file, w.processes[i]).index.Keys)
                 && (forall k :: k in vec ==> k in Contents(w.file.log)))
    && var middle := if back then WriteBack(c, w.file, front, vec) else w.file;
       var file := Append(c, middle, r);
       && Small(middle.log) && Small(file.log)
       && var index := if back then Index(middle.log) else CheckLoadData(c, w.file, w.processes[i]).index;
          w' == World(file,
                      w.processes[i := Loaded(file.sequence, file.size, file.crc,
                                              IndexStep(index, r, End(middle.log)))],
                      w.history + [r])
  }

  /** A process catches up and writes everything back, but nothing new. */
  ghost predicate Rewrites(c: Checksum, w: World, w': World, i: nat, front: Bytes, vec: seq<Bytes>)
    requires Small(w.file.log) && i < |w.processes|
  {
    && |front| == HOLDER_SIZE && Enumerates(vec, CheckLoadData(c, w.file, w.processes[i]).index.Keys)
    && (forall k :: k in vec ==> k in Contents(w.file.log))
    && var file := WriteBack(c, w.file, front, vec);
       && Small(file.log)
       && w' == World(file, w.processes[i := FullLoad(file)], w.history)
  }

  ghost predicate Next(c: Checksum, w: World, w': World)
    requires Small(w.file.log)
  {
    exists i: nat :: StepOf(c, w, w', i)
  }

  ghost predicate StepOf(c: Checksum, w: World, w': World, i: nat)
    requires Small(w.file.log)
  {
    && i < |w.processes|
    && (Reads(c, w, w', i)
        || (exists r: Record, back: bool, front: Bytes, vec: seq<Bytes> :: Writes(c, w, w', i, r, back, front, vec))
        || exists front: Bytes, vec: seq<Bytes> :: Rewrites(c, w, w', i, front, vec))
  }

  // ---- What is kept ----

  /** The process has seen the first m records. */
  ghost predicate Saw(c: Checksum, f: File, p: Process, m: nat)
    requires p.Loaded?
  {
    && m <= |f.log| && Small(f.log[..m]) && p.index == Index(f.log[..m])
    && (p.size == 0 ==> m == 0)
    && (p.size != 0 ==> p.size == End(f.log[..m]) && p.crc == c.extend(c.start, f.front + EncodeLog(f.log[..m])))
  }

  /** With the file's sequence number, a process's view is a prefix of the file's log. */
  ghost predicate ProcessOk(c: Checksum, f: File, p: Process)
  {
    p.Loaded? ==>
      && p.sequence <= f.sequence
      && (p.sequence == f.sequence && p.size == 0 ==> f.size == 0 && p.index == map[] && p.crc == f.crc)
      && (p.sequence == f.sequence && p.size != 0 ==> exists m: nat :: Saw(c, f, p, m))
  }

  ghost predicate Inv(c: Checksum, w: World)
  {
    && FileOk(c, w.file)
    && Contents(w.file.log) == Contents(w.history)
    && forall i :: 0 <= i < |w.processes| ==> ProcessOk(c, w.file, w.processes[i])
  }

  lemma {:induction false} EndsGrow(log: seq<Record>, m: nat)
    requires m <= |log|
    ensures End(log[..m]) <= End(log) && (m < |log| ==> End(log[..m]) < End(log))
    ensures exists s: Bytes :: EncodeLog(log) == EncodeLog(log[..m]) + s
    decreases |log|
  {
    if m == |log| {
      assert log[..m] == log;
      assert EncodeLog(log) == EncodeLog(log[..m]) + [];
    } else {
      var before, r := log[..|log| - 1], log[|log| - 1];
      EndsGrow(before, m);
      assert before[..m] == log[..m];
      var s: Bytes :| EncodeLog(before) == EncodeLog(log[..m]) + s;
      NotNothing(r);
      hide EncodeRecord;
      Reassociate(EncodeLog(log[..m]), s, EncodeRecord(r));
    }
  }

  lemma {:induction false} NotNothing(r: Record)
    ensures |EncodeRecord(r)| > 0
  {
  }

  lemma {:induction false} Reassociate(a: Bytes, b: Bytes, c: Bytes)
    ensures (a + b) + c == a + (b + c)
  {
  }

  lemma {:induction false} ReplayCompletes(log: seq<Record>, m: nat)
    requires Small(log) && m <= |log|
    ensures Small(log[..m]) && ReplayFrom(log, End(log[..m]), Index(log[..m])) == Index(log)
    decreases |log|
  {
    if m == |log| {
      assert log[..m] == log;
      ReplayNothing(log);
    } else {
      var before := log[..|log| - 1];
      SmallPrefix(log);
      ReplayCompletes(before, m);
      assert before[..m] == log[..m];
      EndsGrow(before, m);
    }
  }

  lemma {:induction false} ReplayNothing(log: seq<Record>)
    requires Small(log)
    ensures ReplayFrom(log, End(log), Index(log)) == Index(log)
  {
    if log != [] {
      var before := log[..|log| - 1];
      assert before == log[..|before|];
      EndsGrow(log, |before|);
    }
  }

  /** A process that has seen m records of the current log catches up with the rest. */
  lemma {:induction false} PartialCatchesUp(c: Checksum, f: File, p: Process, m: nat)
    requires Continues(c) && FileOk(c, f) && p.Loaded? && p.sequence == f.sequence && p.size != 0 && f.size != 0
      && Saw(c, f, p, m)
    ensures CheckLoadData(c, f, p) == Loaded(f.sequence, f.size, f.crc, Index(f.log))
  {
    EndsGrow(f.log, m);
    if m == |f.log| {
      assert f.log[..m] == f.log;
    } else {
      var s: Bytes :| EncodeLog(f.log) == EncodeLog(f.log[..m]) + s;
      var seen := f.front + EncodeLog(f.log[..m]);
      Reassociate(f.front, EncodeLog(f.log[..m]), s);
      assert Content(f) == seen + s && Content(f)[p.size..f.size] == s;
      assert c.extend(c.extend(c.start, seen), s) == c.extend(c.start, seen + s);
      ReplayCompletes(f.log, m);
    }
  }

  /** After catching up, whether by a full, a partial or no reload, the index is the replay of the whole file. */
  lemma {:induction false} CatchesUp(c: Checksum, f: File, p: Process)
    requires Continues(c) && FileOk(c, f) && ProcessOk(c, f, p)
    ensures CheckLoadData(c, f, p) == Loaded(f.sequence, f.size, f.crc, Index(f.log))
  {
    if p.Loaded? && p.sequence == f.sequence && p.size != 0 {
      var m: nat :| Saw(c, f, p, m);
      EndsGrow(f.log, m);
      PartialWithFile(c, f, p, m);
    }
  }

  lemma {:induction false} PartialWithFile(c: Checksum, f: File, p: Process, m: nat)
    requires Continues(c) && FileOk(c, f) && p.Loaded? && p.sequence == f.sequence && p.size != 0 && Saw(c, f, p, m)
    ensures CheckLoadData(c, f, p) == Loaded(f.sequence, f.size, f.crc, Index(f.log))
  {
    if f.size != 0 {
      PartialCatchesUp(c, f, p, m);
    }
  }

  lemma {:induction false} FreshView(c: Checksum, f: File)
    requires FileOk(c, f)
    ensures ProcessOk(c, f, Loaded(f.sequence, f.size, f.crc, Index(f.log)))
  {
    assert f.log[..|f.log|] == f.log;
    if f.size != 0 {
      assert Saw(c, f, Loaded(f.sequence, f.size, f.crc, Index(f.log)), |f.log|);
    }
  }

  // ---- Writing keeps the meaning ----

  lemma {:induction false} ValuesLeft(log: seq<Record>, k: Bytes)
    requires k in Contents(log)
    ensures Contents(log)[k] != []
  {
    if log[|log| - 1].key != k {
      ValuesLeft(log[..|log| - 1], k);
    }
  }

  /** Writing back the live records, in any order, keeps the contents. */
  lemma {:induction false} CompactedContents(log: seq<Record>, vec: seq<Bytes>)
    requires Enumerates(vec, Contents(log).Keys)
    requires Small(Compacted(vec, Contents(log)))
    ensures Contents(Compacted(vec, Contents(log))) == Contents(log)
  {
    var store := Contents(log);
    var compacted := Compacted(vec, store);
    forall i | 0 <= i < |vec|
      ensures compacted[i].value != []
    {
      assert vec[i] in vec;
      ValuesLeft(log, vec[i]);
    }
    forall k
      ensures k in Contents(compacted) <==> k in store
      ensures k in store ==> Contents(compacted)[k] == store[k]
    {
      assert forall i :: 0 <= i < |vec| ==> compacted[i].key == vec[i] && vec[i] in vec;
      DistinctKeys(compacted, k);
      if k in store {
        assert k in vec;
        var i :| 0 <= i < |vec| && vec[i] == k;
        DistinctIndex(compacted, i);
      }
    }
  }

  lemma {:induction false} AppendOk(c: Checksum, f: File, r: Record)
    requires Continues(c) && FileOk(c, f) && f.size != 0 && Fits(r) && Small(f.log + [r])
    ensures FileOk(c, Append(c, f, r))
    ensures Index(f.log + [r]) == IndexStep(Index(f.log), r, End(f.log))
    ensures Contents(f.log + [r]) == Applied(Contents(f.log), r)
  {
    EncodeSnoc(f.log, r);
    IndexSnoc(f.log, r);
    ContentsSnoc(f.log, r);
    Reassociate(f.front, EncodeLog(f.log), EncodeRecord(r));
    assert c.extend(c.extend(c.start, Content(f)), EncodeRecord(r)) == c.extend(c.start, Content(f) + EncodeRecord(r));
  }

  lemma {:induction false} WriteBackOk(c: Checksum, f: File, front: Bytes, vec: seq<Bytes>)
    requires FileOk(c, f) && |front| == HOLDER_SIZE && Enumerates(vec, Contents(f.log).Keys)
    requires Small(WriteBack(c, f, front, vec).log)
    ensures var f' := WriteBack(c, f, front, vec);
            FileOk(c, f') && f'.size != 0 && f'.sequence > f.sequence && Contents(f'.log) == Contents(f.log)
  {
    CompactedContents(f.log, vec);
  }

  /** The view of another process survives: it is still a prefix, or it belongs to an older sequence number. */
  lemma {:induction false} ViewKept(c: Checksum, f: File, f': File, p: Process)
    requires ProcessOk(c, f, p) && f'.sequence >= f.sequence
    requires f'.sequence == f.sequence ==> f.size != 0 && f'.front == f.front && |f.log| <= |f'.log|
                                           && f'.log[..|f.log|] == f.log
    ensures ProcessOk(c, f', p)
  {
    if p.Loaded? && p.sequence == f'.sequence && p.size != 0 {
      var m: nat :| Saw(c, f, p, m);
      assert f'.log[..|f.log|][..m] == f'.log[..m];
      assert Saw(c, f', p, m);
    }
  }

  lemma {:induction false} WriteKeeps(c: Checksum, w: World, w': World, i: nat, r: Record, back: bool, front: Bytes,
                                      vec: seq<Bytes>)
    requires Continues(c) && Inv(c, w) && i < |w.processes| && Writes(c, w, w', i, r, back, front, vec)
    ensures Inv(c, w')
  {
    CatchesUp(c, w.file, w.processes[i]);
    if back {
      WriteBackOk(c, w.file, front, vec);
    }
    var middle := if back then WriteBack(c, w.file, front, vec) else w.file;
    AppendOk(c, middle, r);
    FreshView(c, w'.file);
    ContentsSnoc(w.history, r);
    forall j | 0 <= j < |w'.processes|
      ensures ProcessOk(c, w'.file, w'.processes[j])
    {
      if j != i {
        assert ProcessOk(c, w.file, w.processes[j]);
        ViewKept(c, w.file, w'.file, w.processes[j]);
      }
    }
  }

  lemma {:induction false} RewriteKeeps(c: Checksum, w: World, w': World, i: nat, front: Bytes, vec: seq<Bytes>)
    requires Continues(c) && Inv(c, w) && i < |w.processes| && Rewrites(c, w, w', i, front, vec)
    ensures Inv(c, w')
  {
    CatchesUp(c, w.file, w.processes[i]);
    WriteBackOk(c, w.file, front, vec);
    FreshView(c, w'.file);
    forall j | 0 <= j < |w'.processes|
      ensures ProcessOk(c, w'.file, w'.processes[j])
    {
      if j != i {
        assert ProcessOk(c, w.file, w.processes[j]);
        ViewKept(c, w.file, w'.file, w.processes[j]);
      }
    }
  }

  lemma {:induction false} ReadKeeps(c: Checksum, w: World, w': World, i: nat)
    requires Continues(c) && Inv(c, w) && i < |w.processes| && Reads(c, w, w', i)
    ensures Inv(c, w')
  {
    CatchesUp(c, w.file, w.processes[i]);
    FreshView(c, w.file);
  }

  // ---- Runs ----

  /** An empty file that nobody has looked at. */
  ghost predicate Init(w: World)
  {
    && w.file.size == 0 && w.file.crc == 0 && w.file.log == [] && |w.file.front| == HOLDER_SIZE && w.history == []
    && forall i :: 0 <= i < |w.processes| ==> w.processes[i] == Unloaded
  }

  ghost predicate Follows(c: Checksum, r: seq<World>, n: nat)
    requires n + 1 < |r|
  {
    Small(r[n].file.log) && Next(c, r[n], r[n + 1])
  }

  ghost predicate Run(c: Checksum, r: seq<World>)
  {
    r != [] && Init(r[0]) && forall n: nat :: n + 1 < |r| ==> Follows(c, r, n)
  }

  lemma {:induction false} Reachable(c: Checksum, r: seq<World>, n: nat)
    requires Continues(c) && Run(c, r) && n < |r|
    ensures Inv(c, r[n])
  {
    if n > 0 {
      Reachable(c, r, n - 1);
      assert Follows(c, r, n - 1);
      var i: nat :| StepOf(c, r[n - 1], r[n], i);
      StepKeeps(c, r[n - 1], r[n], i);
    }
  }

  lemma {:induction false} StepKeeps(c: Checksum, w: World, w': World, i: nat)
    requires Small(w.file.log) && Continues(c) && Inv(c, w) && StepOf(c, w, w', i)
    ensures Inv(c, w')
  {
    hide Inv, Reads, Writes, Rewrites;
    if Reads(c, w, w', i) {
      ReadKeeps(c, w, w', i);
    } else if r: Record, back: bool, front: Bytes, vec: seq<Bytes> :| Writes(c, w, w', i, r, back, front, vec) {
      WriteKeeps(c, w, w', i, r, back, front, vec);
    } else {
      var front: Bytes, vec: seq<Bytes> :| Rewrites(c, w, w', i, front, vec);
      RewriteKeeps(c, w, w', i, front, vec);
    }
  }

  // ---- The operations of a store ----

  /** A write of a store that has caught up is a step of this world: the log it leaves, and the index. */
  lemma {:induction false} StoreWriteIsStep(c: Checksum, w: World, i: nat, log: seq<Record>, r: Record, front: Bytes)
    returns (w': World)
    requires Continues(c) && Inv(c, w) && i < |w.processes| && |front| == HOLDER_SIZE
    requires Fits(r) && Small(log) && Appended(w.file.log, log, r)
    ensures StepOf(c, w, w', i) && w'.file.log == log && w'.history == w.history + [r]
    ensures w'.processes[i] == Loaded(w'.file.sequence, w'.file.size, w'.file.crc, Index(log))
  {
    var middle := log[..|log| - 1];
    assert log == middle + [r];
    CatchesUp(c, w.file, w.processes[i]);
    SmallPrefix(log);
    IndexSnoc(middle, r);
    var vec: seq<Bytes>, back := [], true;
    if w.file.size == 0 {
      NothingToWriteBack(middle);
    } else if v: seq<Bytes> :| WrittenBack(w.file.log, middle, v) {
      vec := v;
    } else {
      back := false;
    }
    var file := Append(c, if back then WriteBack(c, w.file, front, vec) else w.file, r);
    w' := World(file, w.processes[i := Loaded(file.sequence, file.size, file.crc, Index(log))], w.history + [r]);
    assert Writes(c, w, w', i, r, back, front, vec);
  }

  lemma {:induction false} NothingToWriteBack(middle: seq<Record>)
    requires Rewritten([], middle)
    ensures middle == [] && WrittenBack([], [], [])
  {
    if vec: seq<Bytes> :| WrittenBack([], middle, vec) {
      assert forall k :: k in vec ==> k in Contents([]).Keys;
      assert vec != [] ==> vec[0] in vec;
    }
  }

  /** A write that fails may still have written everything back. */
  lemma {:induction false} StoreRewriteIsStep(c: Checksum, w: World, i: nat, log: seq<Record>, front: Bytes)
    returns (w': World)
    requires Continues(c) && Inv(c, w) && i < |w.processes| && |front| == HOLDER_SIZE
    requires Small(log) && Rewritten(w.file.log, log)
    ensures StepOf(c, w, w', i) && w'.file.log == log && w'.history == w.history
    ensures w'.processes[i] == Loaded(w'.file.sequence, w'.file.size, w'.file.crc, Index(log))
  {
    CatchesUp(c, w.file, w.processes[i]);
    if vec: seq<Bytes> :| WrittenBack(w.file.log, log, vec) {
      var file := WriteBack(c, w.file, front, vec);
      w' := World(file, w.processes[i := FullLoad(file)], w.history);
      assert Rewrites(c, w, w', i, front, vec);
    } else {
      w' := w.(processes := w.processes[i := CheckLoadData(c, w.file, w.processes[i])]);
      assert Reads(c, w, w', i);
    }
  }

  /** Whatever the processes have done, one that has caught up finds exactly the last value written for every
      key, by whichever process, behind its index. */
  lemma {:induction false} SeesAllWrites(c: Checksum, r: seq<World>, n: nat, i: nat)
    requires Continues(c) && Run(c, r) && n < |r| && i < |r[n].processes|
    ensures Small(r[n].file.log)
    ensures var f, p := r[n].file, CheckLoadData(c, r[n].file, r[n].processes[i]);
            && p.Loaded? && p.index.Keys == Contents(r[n].history).Keys
            && forall k :: k in p.index ==> Lies(Content(f), p.index[k], Record(k, Contents(r[n].history)[k]))
  {
    Reachable(c, r, n);
    var f := r[n].file;
    CatchesUp(c, f, r[n].processes[i]);
    assert Spells(Content(f), f.log) by {
      assert Content(f)[HOLDER_SIZE..End(f.log)] == EncodeLog(f.log);
    }
    forall k | k in Index(f.log)
      ensures Lies(Content(f), Index(f.log)[k], Record(k, Contents(r[n].history)[k]))
    {
      IndexLies(Content(f), f.log, k);
    }
  }
}
