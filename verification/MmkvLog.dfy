/** The append-only log of a key-value file, and what an index and a reader make of it. */
module MmkvLog {
  import opened Machine
  import opened Varint

  /** An empty value marks the key as removed. */
  datatype Record = Record(key: Bytes, value: Bytes)

  /** Where the index finds a value: the size of the record before the value, of the key and of the value. */
  datatype Holder = Holder(computedKVSize: uint16, keySize: uint16, valueSize: uint32, offset: uint32)

  /** The log is preceded by a number of exactly four bytes. */
  const HOLDER_SIZE: nat := 4

  /** Sizes that the index can hold; the reader refuses values of 2^31 bytes. */
  predicate Fits(r: Record)
  {
    && r.key != [] && |r.key| < TWO_16 && |r.value| < TWO_31
    && Size(|r.key|) + |r.key| + Size(|r.value|) < TWO_16
  }

  predicate AllFit(log: seq<Record>)
  {
    forall i :: 0 <= i < |log| ==> Fits(log[i])
  }

  function Header(r: Record): (s: Bytes)
  {
    Encode(|r.key|) + r.key + Encode(|r.value|)
  }

  function EncodeRecord(r: Record): Bytes
  {
    Header(r) + r.value
  }

  lemma {:induction false} RecordSize(r: Record)
    requires Fits(r)
    ensures |Header(r)| == Size(|r.key|) + |r.key| + Size(|r.value|) < TWO_16
    ensures |EncodeRecord(r)| == |Header(r)| + |r.value|
  {
    SizeIsLength(|r.key|);
    SizeIsLength(|r.value|);
  }

  function HolderOf(r: Record, offset: uint32): Holder
    requires Fits(r)
  {
    Holder(Size(|r.key|) + |r.key| + Size(|r.value|), |r.key|, |r.value|, offset)
  }

  function RecordSpan(h: Holder): nat
  {
    h.computedKVSize + h.valueSize
  }

  function EncodeLog(log: seq<Record>): Bytes
  {
    if log == [] then [] else EncodeLog(log[..|log| - 1]) + EncodeRecord(log[|log| - 1])
  }

  /** Where the next record goes. */
  function End(log: seq<Record>): (n: nat)
    ensures n >= HOLDER_SIZE
  {
    HOLDER_SIZE + |EncodeLog(log)|
  }

  lemma {:induction false} EncodeSnoc(log: seq<Record>, r: Record)
    ensures EncodeLog(log + [r]) == EncodeLog(log) + EncodeRecord(r)
    ensures End(log + [r]) == End(log) + |EncodeRecord(r)|
  {
    assert (log + [r])[..|log|] == log;
  }

  /** Last writer wins. */
  function Contents(log: seq<Record>): map<Bytes, Bytes>
  {
    if log == [] then map[] else Applied(Contents(log[..|log| - 1]), log[|log| - 1])
  }

  function Applied(m: map<Bytes, Bytes>, r: Record): map<Bytes, Bytes>
  {
    if r.value == [] then m - {r.key} else m[r.key := r.value]
  }

  predicate Small(log: seq<Record>)
  {
    AllFit(log) && End(log) < TWO_32
  }

  lemma {:induction false} SmallPrefix(log: seq<Record>)
    requires Small(log) && log != []
    ensures Small(log[..|log| - 1])
  {
  }

  /** What replaying the log leaves in the index. */
  function Index(log: seq<Record>): (m: map<Bytes, Holder>)
    requires Small(log)
    ensures m.Keys == Contents(log).Keys
  {
    if log == [] then map[]
    else
      var before := log[..|log| - 1];
      IndexStep(Index(before), log[|log| - 1], End(before))
  }

  function IndexStep(m: map<Bytes, Holder>, r: Record, offset: uint32): (m': map<Bytes, Holder>)
    requires Fits(r)
    ensures m'.Keys == if r.value == [] then m.Keys - {r.key} else m.Keys + {r.key}
  {
    if r.value == [] then m - {r.key} else m[r.key := HolderOf(r, offset)]
  }

  lemma {:induction false} ContentsSnoc(log: seq<Record>, r: Record)
    ensures Contents(log + [r]) == Applied(Contents(log), r)
  {
    assert (log + [r])[..|log|] == log;
  }

  lemma {:induction false} IndexSnoc(log: seq<Record>, r: Record)
    requires Small(log) && Small(log + [r])
    ensures Index(log + [r]) == IndexStep(Index(log), r, End(log))
  {
    assert (log + [r])[..|log|] == log;
  }

  // ---- The bytes behind an index entry ----

  /** The bytes from the fifth on spell the log. */
  ghost predicate Spells(bytes: Bytes, log: seq<Record>)
  {
    End(log) <= |bytes| && bytes[HOLDER_SIZE..End(log)] == EncodeLog(log)
  }

  /** The entry's record lies at its offset: header first, then the value. */
  ghost predicate Lies(bytes: Bytes, h: Holder, r: Record)
  {
    && Fits(r) && h == HolderOf(r, h.offset) && HOLDER_SIZE <= h.offset && h.offset + |EncodeRecord(r)| <= |bytes|
    && bytes[h.offset..h.offset + |EncodeRecord(r)|] == EncodeRecord(r)
  }

  lemma {:induction false} SpellsPrefix(bytes: Bytes, log: seq<Record>)
    requires Spells(bytes, log) && log != []
    ensures Spells(bytes, log[..|log| - 1])
    ensures var before, r := log[..|log| - 1], log[|log| - 1];
            End(before) + |EncodeRecord(r)| == End(log) && bytes[End(before)..End(log)] == EncodeRecord(r)
  {
    var before, r := log[..|log| - 1], log[|log| - 1];
    assert log == before + [r];
    EncodeSnoc(before, r);
    var s := bytes[HOLDER_SIZE..End(log)];
    assert s[..|EncodeLog(before)|] == EncodeLog(before);
    assert s[|EncodeLog(before)|..] == EncodeRecord(r);
    assert bytes[HOLDER_SIZE..End(before)] == s[..|EncodeLog(before)|];
    assert bytes[End(before)..End(log)] == s[|EncodeLog(before)|..];
  }

  /** Every entry of the index points at a record with the key's value. */
  lemma {:induction false} IndexLies(bytes: Bytes, log: seq<Record>, k: Bytes)
    requires Small(log) && Spells(bytes, log) && k in Index(log)
    ensures Contents(log)[k] != [] && Lies(bytes, Index(log)[k], Record(k, Contents(log)[k]))
    ensures Index(log)[k].offset + RecordSpan(Index(log)[k]) <= End(log)
  {
    var before, r := log[..|log| - 1], log[|log| - 1];
    SpellsPrefix(bytes, log);
    if r.key == k {
      RecordSize(r);
      assert r == Record(k, r.value);
    } else {
      IndexLies(bytes, before, k);
    }
    hide Spells, EncodeRecord, EncodeLog;
  }

  /** The records of two keys do not overlap. */
  lemma {:induction false} EntriesApart(bytes: Bytes, log: seq<Record>, k: Bytes, k': Bytes)
    requires Small(log) && Spells(bytes, log) && k in Index(log) && k' in Index(log) && k != k'
    ensures var h, h' := Index(log)[k], Index(log)[k'];
            h.offset + RecordSpan(h) <= h'.offset || h'.offset + RecordSpan(h') <= h.offset
  {
    var before, r := log[..|log| - 1], log[|log| - 1];
    SpellsPrefix(bytes, log);
    if r.key == k {
      IndexLies(bytes, before, k');
    } else if r.key == k' {
      IndexLies(bytes, before, k);
    } else {
      EntriesApart(bytes, before, k, k');
    }
    hide Spells, EncodeRecord, EncodeLog;
  }

  // ---- Logs without superseded records ----

  predicate Distinct(log: seq<Record>)
  {
    && (forall i :: 0 <= i < |log| ==> log[i].value != [])
    && (forall i, j :: 0 <= i < j < |log| ==> log[i].key != log[j].key)
  }

  /** Such a log's index and contents can be read off its records. */
  lemma {:induction false} DistinctIndex(log: seq<Record>, i: nat)
    requires Small(log) && Distinct(log) && i < |log|
    ensures Small(log[..i]) && log[i].key in Index(log)
    ensures Index(log)[log[i].key] == HolderOf(log[i], End(log[..i]))
    ensures Contents(log)[log[i].key] == log[i].value
  {
    var n := |log| - 1;
    SmallPrefix(log);
    if i < n {
      DistinctIndex(log[..n], i);
      assert log[..n][..i] == log[..i];
    }
  }

  lemma {:induction false} DistinctKeys(log: seq<Record>, k: Bytes)
    requires Distinct(log)
    ensures k in Contents(log) <==> exists i :: 0 <= i < |log| && log[i].key == k
  {
    if log != [] {
      var n := |log| - 1;
      DistinctKeys(log[..n], k);
      assert forall i :: 0 <= i < n ==> log[..n][i] == log[i];
    }
  }
}
