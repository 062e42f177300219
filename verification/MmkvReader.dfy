/** Replaying a file into an index, from the beginning or from where an earlier replay stopped. */
module MmkvReader {
  import opened Machine
  import opened Varint
  import opened MmkvLog
  import opened MmkvStore

  /** A key, with the part of its index entry that is known before the value is read. */
  datatype KeyPart = KeyPart(key: Bytes, keySize: uint16, offset: nat)

  /** Reads a string; an encoded key k comes back. */
  method ReadString(input: CodedInputData, ghost k: Bytes) returns (r: Result<KeyPart>)
    requires input.Valid()
    modifies input
    ensures input.Valid() && old(input.position) <= input.position && (r.Ok? ==> old(input.position) < input.position)
    ensures r.Ok? ==> r.value.offset == old(input.position)
    ensures |k| < TWO_16 && Encode(|k|) + k <= old(input.Rest()) ==>
              r == Ok(KeyPart(k, |k|, old(input.position))) && input.position == old(input.position) + |Encode(|k|) + k|
  {
    hide Encode;
    ghost var s, p := input.Rest(), input.position;
    if Encode(|k|) + k <= s {
      KeyBehind(input, s, p, k);
    }
    var offset := input.position;
    var size := input.ReadRawVarint32();
    if size.Err? {
      return Err(size.error);
    }
    if size.value >= TWO_31 {
      return Err(NegativeSize);
    }
    if size.value > input.size - input.position {
      return Err(Truncated);
    }
    var key := input.bytes[input.position..input.position + size.value];
    input.position := input.position + size.value;
    r := Ok(KeyPart(key, Wrap16(size.value), offset));
  }

  /** The bytes of a key that follows its encoded length. */
  lemma {:induction false} KeyBehind(input: CodedInputData, s: Bytes, p: nat, k: Bytes)
    requires input.Valid() && p <= input.size && s == input.bytes[p..input.size] && Encode(|k|) + k <= s
    ensures Encode(|k|) <= s && p + |Encode(|k|)| + |k| <= input.size
    ensures input.bytes[p + |Encode(|k|)|..p + |Encode(|k|)| + |k|] == k
  {
    hide Encode;
    var n := |Encode(|k|)|;
    Prefix(Encode(|k|), k, s);
    assert input.bytes[p + n..p + n + |k|] == s[n..n + |k|];
  }

  lemma {:induction false} Prefix(a: Bytes, b: Bytes, s: Bytes)
    requires a + b <= s
    ensures a <= s && s[|a|..|a| + |b|] == b && b <= s[|a|..]
  {
    assert (a + b)[..|a|] == a && (a + b)[|a|..] == b;
    assert s[..|a + b|][..|a|] == s[..|a|];
  }

  /** Reads the size of a value and skips the value. */
  method ReadData(input: CodedInputData, offset: nat, ghost n: uint32) returns (r: Result<(uint16, uint32)>)
    requires input.Valid() && offset <= input.position
    modifies input
    ensures input.Valid() && old(input.position) <= input.position
    ensures n < TWO_31 && Encode(n) <= old(input.Rest()) && |Encode(n)| + n <= |old(input.Rest())| ==>
              r == Ok((Wrap16(old(input.position) + |Encode(n)| - offset), n))
                && input.position == old(input.position) + |Encode(n)| + n
  {
    hide Encode;
    var size := input.ReadRawVarint32();
    if size.Err? {
      return Err(size.error);
    }
    if size.value >= TWO_31 {
      return Err(NegativeSize);
    }
    if size.value > input.size - input.position {
      return Err(Truncated);
    }
    r := Ok((Wrap16(input.position - offset), size.value));
    input.position := input.position + size.value;
  }

  lemma {:induction false} RestShrinks(input: CodedInputData, s: Bytes, p: nat)
    requires input.Valid() && p <= input.position && s == input.bytes[p..input.size]
    ensures input.Rest() == s[input.position - p..]
  {
  }

  /** One round of the replay. */
  method ReadRecord(input: CodedInputData, dic: map<Bytes, Holder>, ghost rec: Record)
    returns (r: Result<map<Bytes, Holder>>)
    requires input.Valid() && input.size < TWO_32
    modifies input
    ensures input.Valid() && (r.Ok? ==> old(input.position) < input.position)
    ensures Fits(rec) && EncodeRecord(rec) <= old(input.Rest()) ==>
              r == Ok(IndexStep(dic, rec, old(input.position)))
                && input.position == old(input.position) + |EncodeRecord(rec)|
  {
    ghost var s := input.Rest();
    if Fits(rec) && EncodeRecord(rec) <= s {
      RecordFront(rec, s);
    }
    hide Encode, EncodeRecord;
    var k := ReadString(input, rec.key);
    if k.Err? {
      return Err(k.error);
    }
    RestShrinks(input, s, old(input.position));
    if |k.value.key| == 0 {
      return Ok(dic);
    }
    var d := ReadData(input, k.value.offset, if Fits(rec) then |rec.value| else 0);
    if d.Err? {
      return Err(d.error);
    }
    if d.value.1 > 0 {
      r := Ok(dic[k.value.key := Holder(d.value.0, k.value.keySize, d.value.1, k.value.offset)]);
    } else {
      r := Ok(dic - {k.value.key});
    }
  }

  /** The parts of a record at the front of s. */
  lemma {:induction false} RecordFront(rec: Record, s: Bytes)
    requires Fits(rec) && EncodeRecord(rec) <= s
    ensures var k, n := Encode(|rec.key|) + rec.key, |rec.value|;
            && k <= s && Encode(n) <= s[|k|..] && |Encode(n)| + n <= |s[|k|..]|
            && |EncodeRecord(rec)| == |k| + |Encode(n)| + n
            && |k| + |Encode(n)| == Size(|rec.key|) + |rec.key| + Size(n) < TWO_16
  {
    var k, v := Encode(|rec.key|) + rec.key, Encode(|rec.value|) + rec.value;
    RecordParts(rec.key, rec.value);
    SizeIsLength(|rec.key|);
    SizeIsLength(|rec.value|);
    hide Encode, EncodeRecord;
    Prefix(k, v, s);
    Prefix(Encode(|rec.value|), rec.value, s[|k|..]);
  }

  /** The first `size` bytes of the file spell the log, with a size holder in front. */
  ghost predicate Complete(bytes: Bytes, size: nat, log: seq<Record>)
  {
    && HOLDER_SIZE <= |bytes| && size < TWO_32 && size <= |bytes|
    && Small(log) && size == End(log) && Spells(bytes, log) && HasHolder(bytes)
  }

  lemma {:induction false} NextInFile(bytes: Bytes, size: nat, log: seq<Record>, i: nat)
    requires Complete(bytes, size, log) && i <= |log|
    ensures Small(log[..i]) && HOLDER_SIZE <= End(log[..i]) <= size
    ensures i == |log| <==> End(log[..i]) == size
    ensures i < |log| ==>
              && Fits(log[i]) && EncodeRecord(log[i]) <= bytes[End(log[..i])..size]
              && Small(log[..i + 1]) && End(log[..i + 1]) == End(log[..i]) + |EncodeRecord(log[i])|
              && Index(log[..i + 1]) == IndexStep(Index(log[..i]), log[i], End(log[..i]))
  {
    SmallTake(log, i);
    SpellsTake(bytes, log, i);
    if i < |log| {
      SmallTake(log, i + 1);
      SpellsTake(bytes, log, i + 1);
      assert log[..i + 1] == log[..i] + [log[i]];
      assert log[..i + 1][..i] == log[..i];
      SpellsPrefix(bytes, log[..i + 1]);
      IndexSnoc(log[..i], log[i]);
      RecordSize(log[i]);
      hide EncodeRecord, EncodeLog, Index;
      var a, b := End(log[..i]), End(log[..i + 1]);
      assert bytes[a..size][..b - a] == bytes[a..b];
    } else {
      assert log[..i] == log;
    }
  }

  lemma {:induction false} SpellsTake(bytes: Bytes, log: seq<Record>, n: nat)
    requires Spells(bytes, log) && n <= |log|
    ensures Spells(bytes, log[..n]) && End(log[..n]) <= End(log)
    decreases |log|
  {
    if n == |log| {
      assert log[..n] == log;
    } else {
      SpellsPrefix(bytes, log);
      SpellsTake(bytes, log[..|log| - 1], n);
      assert log[..|log| - 1][..n] == log[..n];
    }
  }

  /** The replay starts with an empty index at the beginning, or greedily with the index of the first m
      records at the place where they end. */
  ghost predicate Resumes(log: seq<Record>, m: nat, position: nat, dictionary: map<Bytes, Holder>, greedy: bool)
    requires m <= |log|
  {
    && Small(log[..m])
    && if position == 0 then m == 0 && (greedy ==> dictionary == map[])
       else greedy && position == End(log[..m]) && dictionary == Index(log[..m])
  }

  /** Replays the file into an index: from the beginning, or from the position where m records had been
      replayed. A greedy replay keeps what it has read when something is wrong. */
  method DecodeOneMap(memory: array<uint8>, size: nat, position: nat, dictionary: map<Bytes, Holder>, greedy: bool,
                      ghost log: seq<Record>, ghost m: nat) returns (newDic: map<Bytes, Holder>)
    requires size <= memory.Length && size < TWO_32 && m <= |log|
    ensures Complete(memory[..], size, log) && Resumes(log, m, position, dictionary, greedy) ==> newDic == Index(log)
  {
    hide Complete, Index, EncodeRecord, EncodeLog, Small;
    var input := new CodedInputData(memory, size);
    ghost var fine := Complete(memory[..], size, log) && Resumes(log, m, position, dictionary, greedy);
    newDic := if greedy then dictionary else map[];
    var started := StartAt(input, position, log, m, fine);
    if !started {
      if !greedy { newDic := dictionary; }
      return;
    }
    ghost var i: nat := m;
    if fine {
      NextInFile(memory[..], size, log, m);
      StartIndex(log, m);
    }
    while input.position < size
      invariant input.Valid() && input.bytes == memory && input.size == size && fresh(input)
      invariant fine ==> i <= |log| && Small(log[..i]) && input.position == End(log[..i]) && newDic == Index(log[..i])
      decreases size - input.position
    {
      ghost var rec := Record([], []);
      if fine {
        NextInFile(memory[..], size, log, i);
        rec := log[i];
      }
      var r := ReadRecord(input, newDic, rec);
      if r.Err? {
        if !greedy { newDic := dictionary; }
        return;
      }
      newDic := r.value;
      i := i + 1;
    }
    if fine {
      NextInFile(memory[..], size, log, i);
      assert log[..i] == log;
    }
  }

  lemma {:induction false} StartIndex(log: seq<Record>, m: nat)
    requires m <= |log| && Small(log[..m])
    ensures m == 0 ==> Index(log[..m]) == map[]
  {
  }

  method StartAt(input: CodedInputData, position: nat, ghost log: seq<Record>, ghost m: nat, ghost fine: bool)
    returns (ok: bool)
    requires input.Valid() && input.position == 0 && m <= |log|
    requires fine ==> Complete(input.bytes[..], input.size, log) && if position == 0 then m == 0
      else position == End(log[..m])
    modifies input
    ensures input.Valid() && (fine ==> ok && input.position == End(log[..m]))
  {
    if fine {
      NextInFile(input.bytes[..], input.size, log, m);
      HolderInFront(input.bytes[..], input.size, log);
    }
    if position != 0 {
      var r := input.Seek(position);
      ok := r.Ok?;
    } else {
      assert log[..0] == [];
      assert input.Rest() == input.bytes[..input.size];
      var r := input.ReadRawVarint32();
      ok := r.Ok?;
    }
  }

  /** The size holder is skipped as a number of four bytes. */
  lemma {:induction false} HolderInFront(bytes: Bytes, size: nat, log: seq<Record>)
    requires Complete(bytes, size, log)
    ensures exists n: uint32 :: Encode(n) <= bytes[..size] && |Encode(n)| == HOLDER_SIZE
  {
    var n :| SizeHolder(n) && bytes[..HOLDER_SIZE] == Encode(n);
    HolderLength(n);
    assert bytes[..size][..HOLDER_SIZE] == bytes[..HOLDER_SIZE];
  }

  /** Loading the file of a store gives the store's index again. */
  method LoadFromFile(kv: Mmkv) returns (dic: map<Bytes, Holder>)
    requires kv.Valid()
    ensures dic == kv.dic
  {
    if kv.actualSize == 0 {
      dic := map[];
    } else {
      assert kv.log[..0] == [];
      dic := DecodeOneMap(kv.memory, kv.actualSize, 0, map[], false, kv.log, 0);
    }
  }
}
