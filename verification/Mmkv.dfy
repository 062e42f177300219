/** The key-value store: an index into an append-only log, with compaction in place, growth and overwriting. */
module MmkvStore {
  import opened Arith
  import opened Machine
  import opened Varint
  import opened MmkvLog

  const FIXED32_SIZE: nat := 4

  // ---- Compaction ----

  /** The log that keeps only the records of the given keys, in that order. */
  function Compacted(keys: seq<Bytes>, contents: map<Bytes, Bytes>): (log: seq<Record>)
    requires forall k :: k in keys ==> k in contents
    ensures |log| == |keys| && forall i :: 0 <= i < |keys| ==> log[i] == Record(keys[i], contents[keys[i]])
  {
    seq(|keys|, i requires 0 <= i < |keys| => Record(keys[i], contents[keys[i]]))
  }

  ghost predicate Enumerates(vec: seq<Bytes>, keys: set<Bytes>)
  {
    NoDuplicates(vec) && forall k :: k in keys <==> k in vec
  }

  ghost predicate NoDuplicates(vec: seq<Bytes>)
  {
    forall i, j :: 0 <= i < j < |vec| ==> vec[i] != vec[j]
  }

  ghost predicate SortedByOffset(vec: seq<Bytes>, dic: map<Bytes, Holder>)
  {
    && (forall k :: k in vec ==> k in dic)
    && (forall i, j :: 0 <= i < j < |vec| ==> dic[vec[i]].offset <= dic[vec[j]].offset)
  }

  lemma {:induction false} FirstByOffset(dic: map<Bytes, Holder>, rest: set<Bytes>) returns (k: Bytes)
    requires rest <= dic.Keys && rest != {}
    ensures k in rest && forall k' :: k' in rest ==> dic[k].offset <= dic[k'].offset
    decreases |rest|
  {
    k :| k in rest;
    var others := rest - {k};
    assert forall k' :: k' in rest ==> k' == k || k' in others;
    if others != {} {
      var m := FirstByOffset(dic, others);
      k := if dic[k].offset <= dic[m].offset then k else m;
    }
  }

  method SortByOffset(dic: map<Bytes, Holder>) returns (vec: seq<Bytes>)
    ensures Enumerates(vec, dic.Keys) && SortedByOffset(vec, dic)
  {
    vec := [];
    var rest := dic.Keys;
    while rest != {}
      invariant rest <= dic.Keys && Enumerates(vec, dic.Keys - rest) && SortedByOffset(vec, dic)
      invariant forall k, k' :: k in vec && k' in rest ==> dic[k].offset <= dic[k'].offset
      decreases |rest|
    {
      ghost var first := FirstByOffset(dic, rest);
      var k :| k in rest && forall k' :: k' in rest ==> dic[k].offset <= dic[k'].offset;
      vec := vec + [k];
      rest := rest - {k};
    }
  }

  /** Stretches of bytes: offset and size. */
  type Section = (nat, nat)

  ghost predicate SectionsApart(sections: seq<Section>, size: nat)
  {
    && (forall i :: 0 <= i < |sections| ==> HOLDER_SIZE <= sections[i].0 && sections[i].0 + sections[i].1 <= size)
    && (forall i, j :: 0 <= i < j < |sections| ==> sections[i].0 + sections[i].1 <= sections[j].0)
  }

  /** The bytes of all sections, one after the other. */
  ghost function Gather(bytes: Bytes, sections: seq<Section>): Bytes
    requires SectionsApart(sections, |bytes|)
  {
    if sections == [] then []
    else
      var s := sections[|sections| - 1];
      Gather(bytes, sections[..|sections| - 1]) + bytes[s.0..s.0 + s.1]
  }

  lemma {:induction false} GatherSnoc(bytes: Bytes, sections: seq<Section>, s: Section)
    requires SectionsApart(sections + [s], |bytes|)
    ensures SectionsApart(sections, |bytes|) && HOLDER_SIZE <= s.0 && s.0 + s.1 <= |bytes|
    ensures sections != [] ==> sections[|sections| - 1].0 + sections[|sections| - 1].1 <= s.0
    ensures Gather(bytes, sections + [s]) == Gather(bytes, sections) + bytes[s.0..s.0 + s.1]
  {
    var all := sections + [s];
    assert all[..|sections|] == sections && all[|sections|] == s;
    ApartPrefix(all, |sections|, |bytes|);
    assert sections != [] ==> all[|sections| - 1] == sections[|sections| - 1];
  }

  lemma {:induction false} ApartPrefix(sections: seq<Section>, n: nat, size: nat)
    requires SectionsApart(sections, size) && n <= |sections|
    ensures SectionsApart(sections[..n], size)
  {
  }

  /** Gathered bytes need no more room than there is before the next section. */
  lemma {:induction false} GatherShort(bytes: Bytes, sections: seq<Section>)
    requires SectionsApart(sections, |bytes|)
    ensures sections == [] ==> Gather(bytes, sections) == []
    ensures sections != [] ==>
              var s := sections[|sections| - 1]; HOLDER_SIZE + |Gather(bytes, sections)| <= s.0 + s.1
  {
    if sections != [] {
      GatherShort(bytes, sections[..|sections| - 1]);
    }
  }

  lemma MoveOne(s: Bytes, was: Bytes, to: nat, from: nat, i: nat)
    requires to <= from && from + i < |s| == |was| && s[to..to + i] == was[from..from + i]
      && s[from + i] == was[from + i]
    ensures s[to + i := s[from + i]][to..to + (i + 1)] == was[from..from + (i + 1)]
  {
    var t := s[to + i := s[from + i]];
    assert t[to..to + i + 1] == s[to..to + i] + [s[from + i]];
    assert was[from..from + i + 1] == was[from..from + i] + [was[from + i]];
  }

  /** Copies forwards; the destination is not behind the source. */
  method MoveBytes(buffer: array<uint8>, to: nat, from: nat, n: nat)
    requires to <= from && from + n <= buffer.Length
    modifies buffer
    ensures buffer[to..to + n] == old(buffer[from..from + n])
    ensures buffer[..to] == old(buffer[..to]) && buffer[from + n..] == old(buffer[from + n..])
  {
    ghost var was := buffer[..];
    var i := 0;
    while i < n
      invariant 0 <= i <= n
      invariant buffer[..to] == was[..to] && buffer[to..to + i] == was[from..from + i]
      invariant forall j :: to + i <= j < buffer.Length ==> buffer[j] == was[j]
    {
      MoveOne(buffer[..], was, to, from, i);
      buffer[to + i] := buffer[from + i];
      assert buffer[..to] == was[..to];
      i := i + 1;
    }
    assert buffer[from + n..] == was[from + n..];
  }

  /** Moves one section behind what has been gathered. */
  method MoveSection(buffer: array<uint8>, writePtr: nat, s: Section, ghost was: Bytes, ghost done: seq<Section>)
    returns (newPtr: nat)
    requires SectionsApart(done + [s], |was|) && |was| == buffer.Length
    requires SectionsApart(done, |was|)
    requires HOLDER_SIZE <= writePtr <= buffer.Length && buffer[HOLDER_SIZE..writePtr] == Gather(was, done)
    requires s.0 <= buffer.Length && buffer[s.0..] == was[s.0..]
    modifies buffer
    ensures HOLDER_SIZE <= newPtr <= s.0 + s.1 <= buffer.Length
    ensures buffer[HOLDER_SIZE..newPtr] == Gather(was, done + [s])
    ensures buffer[s.0 + s.1..] == was[s.0 + s.1..]
  {
    hide Gather, SectionsApart;
    GatherSnoc(was, done, s);
    GatherShort(was, done);
    GatherShort(was, done + [s]);
    SliceOfTail(buffer[..], was, s.0, s.1);
    ghost var front := buffer[HOLDER_SIZE..writePtr];
    ghost var before := buffer[..writePtr];
    MoveBytes(buffer, writePtr, s.0, s.1);
    newPtr := writePtr + s.1;
    assert buffer[HOLDER_SIZE..writePtr] == before[HOLDER_SIZE..];
    JoinSlices(buffer[..], HOLDER_SIZE, writePtr, newPtr);
  }

  /** Moves all sections to the front, behind the four bytes of the size holder. */
  method MoveSections(buffer: array<uint8>, sections: seq<Section>) returns (writePtr: nat)
    requires SectionsApart(sections, buffer.Length) && HOLDER_SIZE <= buffer.Length
    modifies buffer
    ensures HOLDER_SIZE <= writePtr <= buffer.Length
    ensures buffer[HOLDER_SIZE..writePtr] == Gather(old(buffer[..]), sections)
  {
    ghost var was := buffer[..];
    writePtr := HOLDER_SIZE;
    NothingGathered(was, sections);
    assert buffer[HOLDER_SIZE..writePtr] == [];
    hide *;
    var i := 0;
    while i < |sections|
      invariant 0 <= i <= |sections| && SectionsApart(sections[..i], |was|) && HOLDER_SIZE <= writePtr <= buffer.Length
      invariant buffer[HOLDER_SIZE..writePtr] == Gather(was, sections[..i])
      invariant i < |sections| ==> sections[i].0 <= buffer.Length && buffer[sections[i].0..] == was[sections[i].0..]
    {
      var s := sections[i];
      TakeNext(sections, i);
      ApartPrefix(sections, i + 1, |was|);
      writePtr := MoveSection(buffer, writePtr, s, was, sections[..i]);
      i := i + 1;
      if i < |sections| {
        ApartNext(sections, i, |was|);
        TailOfTail(buffer[..], was, s.0 + s.1, sections[i].0);
      }
    }
    assert sections[..i] == sections;
  }

  lemma {:induction false} TakeNext(sections: seq<Section>, i: nat)
    requires i < |sections|
    ensures sections[..i + 1] == sections[..i] + [sections[i]]
  {
  }

  lemma {:induction false} NothingGathered(bytes: Bytes, sections: seq<Section>)
    requires SectionsApart(sections, |bytes|)
    ensures sections[..0] == [] && SectionsApart(sections[..0], |bytes|) && Gather(bytes, sections[..0]) == []
    ensures sections != [] ==> sections[0].0 <= |bytes|
  {
  }

  lemma {:induction false} ApartNext(sections: seq<Section>, i: nat, size: nat)
    requires SectionsApart(sections, size) && 0 < i < |sections|
    ensures sections[i - 1].0 + sections[i - 1].1 <= sections[i].0 <= size
  {
  }

  lemma {:induction false} JoinSlices(s: Bytes, a: nat, b: nat, c: nat)
    requires a <= b <= c <= |s|
    ensures s[a..c] == s[a..b] + s[b..c]
  {
  }

  lemma {:induction false} JoinThree(x: Bytes, y: Bytes, z: Bytes)
    ensures x + (y + z) == (x + y) + z
  {
  }

  lemma {:induction false} SliceOfTail(s: Bytes, t: Bytes, p: nat, n: nat)
    requires |s| == |t| && p + n <= |s| && s[p..] == t[p..]
    ensures s[p..p + n] == t[p..p + n] && s[p + n..] == t[p + n..]
  {
    assert s[p..][..n] == s[p..p + n] && t[p..][..n] == t[p..p + n];
    assert s[p..][n..] == s[p + n..] && t[p..][n..] == t[p + n..];
  }

  lemma {:induction false} SliceOfDrop(s: Bytes, p: nat, a: nat, b: nat)
    requires p <= a <= b <= |s|
    ensures s[a..b] == s[p..][a - p..b - p]
  {
  }

  lemma {:induction false} TailOfTail(s: Bytes, t: Bytes, p: nat, q: nat)
    requires |s| == |t| && p <= q <= |s| && s[p..] == t[p..]
    ensures s[q..] == t[q..]
  {
    assert s[p..][q - p..] == s[q..] && t[p..][q - p..] == t[q..];
  }

  /** The records of the keys in vec, in the order of their offsets, are those of the log that is to be written. */
  ghost predicate Sources(bytes: Bytes, vec: seq<Bytes>, dic: map<Bytes, Holder>, log: seq<Record>)
  {
    && |log| == |vec|
    && (forall i :: 0 <= i < |vec| ==> vec[i] in dic && log[i].key == vec[i] && Lies(bytes, dic[vec[i]], log[i]))
    && (forall i, j :: 0 <= i < j < |vec| ==> dic[vec[i]].offset + RecordSpan(dic[vec[i]]) <= dic[vec[j]].offset)
  }

  /** Merges nearby items. */
  method MergeSections(vec: seq<Bytes>, dic: map<Bytes, Holder>, ghost bytes: Bytes, ghost log: seq<Record>)
    returns (sections: seq<Section>)
    requires vec != [] && Sources(bytes, vec, dic, log) && forall i :: 0 <= i < |vec| ==> vec[i] in dic
    ensures SectionsApart(sections, |bytes|) && Gather(bytes, sections) == EncodeLog(log)
  {
    var first := dic[vec[0]];
    sections := [(first.offset, RecordSpan(first))];
    NewSection(bytes, [], vec, dic, log, 0);
    assert [] + sections == sections;
    SourcesLength(bytes, vec, dic, log);
    hide Sources, Gather, EncodeLog, SectionsApart, RecordSpan;
    var index := 1;
    while index < |vec|
      invariant 1 <= index <= |vec| && sections != [] && SectionsApart(sections, |bytes|)
      invariant vec[index - 1] in dic && EndOf(sections) == dic[vec[index - 1]].offset + RecordSpan(dic[vec[index - 1]])
      invariant Gather(bytes, sections) == EncodeLog(log[..index])
    {
      InOrder(bytes, vec, dic, log, index);
      sections := AddItem(sections, vec, dic, index, bytes, log);
      index := index + 1;
    }
    assert log[..index] == log;
  }

  function EndOf(sections: seq<Section>): nat
    requires sections != []
  {
    sections[|sections| - 1].0 + sections[|sections| - 1].1
  }

  /** An item that starts where the last section ends makes it longer; any other starts a new one. */
  method AddItem(sections: seq<Section>, vec: seq<Bytes>, dic: map<Bytes, Holder>, index: nat, ghost bytes: Bytes,
                 ghost log: seq<Record>)
    returns (newSections: seq<Section>)
    requires sections != [] && SectionsApart(sections, |bytes|) && Sources(bytes, vec, dic, log)
    requires index < |vec| && vec[index] in dic && EndOf(sections) <= dic[vec[index]].offset
    requires Gather(bytes, sections) == EncodeLog(log[..index])
    ensures newSections != [] && SectionsApart(newSections, |bytes|)
    ensures EndOf(newSections) == dic[vec[index]].offset + RecordSpan(dic[vec[index]])
    ensures Gather(bytes, newSections) == EncodeLog(log[..index + 1])
  {
    hide Sources, Gather, EncodeLog, SectionsApart, RecordSpan;
    var kvHolder := dic[vec[index]];
    if kvHolder.offset == EndOf(sections) {
      NextRecord(bytes, vec, dic, log, index);
      GatherLonger(bytes, sections, RecordSpan(kvHolder));
      newSections := Longer(sections, RecordSpan(kvHolder));
    } else {
      NewSection(bytes, sections, vec, dic, log, index);
      newSections := sections + [(kvHolder.offset, RecordSpan(kvHolder))];
    }
  }

  lemma {:induction false} SourcesLength(bytes: Bytes, vec: seq<Bytes>, dic: map<Bytes, Holder>, log: seq<Record>)
    requires Sources(bytes, vec, dic, log) && vec != []
    ensures |log| == |vec|
    ensures Gather(bytes, []) == EncodeLog(log[..0])
  {
  }

  lemma {:induction false} InOrder(bytes: Bytes, vec: seq<Bytes>, dic: map<Bytes, Holder>, log: seq<Record>, index: nat)
    requires Sources(bytes, vec, dic, log) && 0 < index < |vec|
    ensures vec[index - 1] in dic && vec[index] in dic
    ensures dic[vec[index - 1]].offset + RecordSpan(dic[vec[index - 1]]) <= dic[vec[index]].offset
  {
  }

  lemma {:induction false} NextRecord(bytes: Bytes, vec: seq<Bytes>, dic: map<Bytes, Holder>, log: seq<Record>,
                                      index: nat)
    requires Sources(bytes, vec, dic, log) && index < |vec|
    ensures var h := dic[vec[index]];
            && HOLDER_SIZE <= h.offset && h.offset + RecordSpan(h) <= |bytes|
            && EncodeLog(log[..index + 1]) == EncodeLog(log[..index]) + bytes[h.offset..h.offset + RecordSpan(h)]
  {
    assert Lies(bytes, dic[vec[index]], log[index]);
    assert log[..index + 1] == log[..index] + [log[index]];
    EncodeSnoc(log[..index], log[index]);
    RecordSize(log[index]);
  }

  lemma {:induction false} NewSection(bytes: Bytes, sections: seq<Section>, vec: seq<Bytes>, dic: map<Bytes, Holder>,
                                      log: seq<Record>, index: nat)
    requires Sources(bytes, vec, dic, log) && index < |vec| && SectionsApart(sections, |bytes|)
    requires Gather(bytes, sections) == EncodeLog(log[..index])
    requires sections != [] ==> var last := sections[|sections| - 1]; last.0 + last.1 <= dic[vec[index]].offset
    ensures var s := (dic[vec[index]].offset as nat, RecordSpan(dic[vec[index]]));
            SectionsApart(sections + [s], |bytes|) && Gather(bytes, sections + [s]) == EncodeLog(log[..index + 1])
  {
    var s := (dic[vec[index]].offset as nat, RecordSpan(dic[vec[index]]));
    NextRecord(bytes, vec, dic, log, index);
    ApartSnoc(sections, s, |bytes|);
    hide Sources, EncodeLog;
    GatherSnoc(bytes, sections, s);
  }

  lemma {:induction false} ApartSnoc(sections: seq<Section>, s: Section, size: nat)
    requires SectionsApart(sections, size) && HOLDER_SIZE <= s.0 && s.0 + s.1 <= size
    requires sections != [] ==> sections[|sections| - 1].0 + sections[|sections| - 1].1 <= s.0
    ensures SectionsApart(sections + [s], size)
  {
    var all, n := sections + [s], |sections|;
    forall i, j | 0 <= i < j < |all|
      ensures all[i].0 + all[i].1 <= all[j].0
    {
      assert i < n - 1 ==> sections[i].0 + sections[i].1 <= sections[n - 1].0;
      assert j < n ==> sections[i].0 + sections[i].1 <= sections[j].0;
    }
  }

  function Longer(sections: seq<Section>, more: nat): (r: seq<Section>)
    requires sections != []
  {
    var last := sections[|sections| - 1];
    sections[..|sections| - 1] + [(last.0, last.1 + more)]
  }

  lemma {:induction false} ApartLonger(sections: seq<Section>, more: nat, size: nat)
    requires SectionsApart(sections, size) && sections != []
    requires sections[|sections| - 1].0 + sections[|sections| - 1].1 + more <= size
    ensures SectionsApart(Longer(sections, more), size) && SectionsApart(sections[..|sections| - 1], size)
  {
    var n := |sections| - 1;
    ApartPrefix(sections, n, size);
    assert n > 0 ==> sections[n - 1].0 + sections[n - 1].1 <= sections[n].0;
    ApartSnoc(sections[..n], (sections[n].0, sections[n].1 + more), size);
  }

  lemma {:induction false} LongerShape(sections: seq<Section>, more: nat)
    requires sections != []
    ensures var n := |sections| - 1;
            && sections == sections[..n] + [sections[n]]
            && Longer(sections, more) == sections[..n] + [(sections[n].0, sections[n].1 + more)]
  {
  }

  lemma {:induction false} GatherLonger(bytes: Bytes, sections: seq<Section>, more: nat)
    requires SectionsApart(sections, |bytes|) && sections != []
    requires sections[|sections| - 1].0 + sections[|sections| - 1].1 + more <= |bytes|
    ensures SectionsApart(Longer(sections, more), |bytes|)
    ensures var end := sections[|sections| - 1].0 + sections[|sections| - 1].1;
            Gather(bytes, Longer(sections, more)) == Gather(bytes, sections) + bytes[end..end + more]
  {
    hide SectionsApart, Longer, Gather;
    ApartLonger(sections, more, |bytes|);
    LongerShape(sections, more);
    var n := |sections| - 1;
    var last, front := sections[n], sections[..n];
    var a, b, c := last.0, last.0 + last.1, last.0 + last.1 + more;
    GatherSnoc(bytes, front, last);
    GatherSnoc(bytes, front, (a, last.1 + more));
    JoinSlices(bytes, a, b, c);
    JoinThree(Gather(bytes, front), bytes[a..b], bytes[b..c]);
  }

  /** The size of the compacted file: the source adds up the same sizes in the order of its hash map. */
  method PrepareEncode(vec: seq<Bytes>, dic: map<Bytes, Holder>, ghost bytes: Bytes, ghost log: seq<Record>)
    returns (totalSize: nat)
    requires Sources(bytes, vec, dic, log)
    ensures totalSize == End(log)
  {
    totalSize := HOLDER_SIZE;
    assert log[..0] == [];
    for i := 0 to |vec|
      invariant totalSize == End(log[..i])
    {
      NextRecord(bytes, vec, dic, log, i);
      totalSize := totalSize + RecordSpan(dic[vec[i]]);
    }
    assert log[..|vec|] == log;
  }

  /** Gives every key its new offset. */
  method UpdateOffsets(vec: seq<Bytes>, dic: map<Bytes, Holder>, ghost bytes: Bytes, ghost log: seq<Record>)
    returns (newDic: map<Bytes, Holder>)
    requires Sources(bytes, vec, dic, log) && NoDuplicates(vec) && Small(log)
    ensures newDic.Keys == dic.Keys
    ensures forall i :: 0 <= i < |vec| ==> Small(log[..i]) && newDic[vec[i]] == HolderOf(log[i], End(log[..i]))
  {
    hide EncodeLog, EncodeRecord, Contents;
    newDic := dic;
    var offset := HOLDER_SIZE;
    NothingLogged(log);
    for i := 0 to |vec|
      invariant newDic.Keys == dic.Keys && offset == End(log[..i])
      invariant forall j :: 0 <= j < i ==> Small(log[..j]) && newDic[vec[j]] == HolderOf(log[j], End(log[..j]))
      invariant forall j :: i <= j < |vec| ==> newDic[vec[j]] == dic[vec[j]]
    {
      NextRecord(bytes, vec, dic, log, i);
      SmallTake(log, i);
      MovedHolder(bytes, dic[vec[i]], log[i], offset);
      newDic := newDic[vec[i] := newDic[vec[i]].(offset := offset)];
      offset := offset + RecordSpan(dic[vec[i]]);
    }
  }

  lemma {:induction false} NothingLogged(log: seq<Record>)
    ensures log[..0] == [] && End(log[..0]) == HOLDER_SIZE
  {
  }

  lemma {:induction false} MovedHolder(bytes: Bytes, h: Holder, r: Record, offset: uint32)
    requires Lies(bytes, h, r)
    ensures Fits(r) && h.(offset := offset) == HolderOf(r, offset)
  {
  }

  lemma {:induction false} SmallTake(log: seq<Record>, n: nat)
    requires Small(log) && n <= |log|
    ensures Small(log[..n])
  {
    if n < |log| {
      SmallPrefix(log);
      SmallTake(log[..|log| - 1], n);
      assert log[..|log| - 1][..n] == log[..n];
    } else {
      assert log[..n] == log;
    }
  }

  // ---- The store ----

  /** The key of a write: given by the caller, or already encoded at some place in the file. */
  datatype KeyData = Raw(key: Bytes) | Encoded(start: nat, length: nat)

  /** The bytes that stand for the value; a data holder carries its own length in front. */
  function ValueOf(data: Bytes, isDataHolder: bool): Bytes
  {
    if isDataHolder then Encode(|data|) + data else data
  }

  /** A random number that takes exactly four bytes. */
  predicate SizeHolder(n: nat)
  {
    0x20_0000 <= n < 0x1000_0000
  }

  ghost predicate HasHolder(bytes: Bytes)
    requires HOLDER_SIZE <= |bytes|
  {
    exists n :: SizeHolder(n) && bytes[..HOLDER_SIZE] == Encode(n)
  }

  lemma {:induction false} HolderLength(n: nat)
    requires SizeHolder(n)
    ensures |Encode(n)| == HOLDER_SIZE
  {
    SizeIsLength(n);
  }

  // ---- Writing one record ----

  /** The two parts of a record as they are written. */
  lemma {:induction false} RecordParts(key: Bytes, v: Bytes)
    ensures EncodeRecord(Record(key, v)) == (Encode(|key|) + key) + (Encode(|v|) + v)
  {
    hide Encode;
    assert (Encode(|key|) + key) + (Encode(|v|) + v) == Encode(|key|) + key + Encode(|v|) + v;
  }

  method WriteKey(buffer: array<uint8>, position: nat, key: Bytes) returns (newPosition: nat)
    requires |key| < TWO_16 && position + |Encode(|key|) + key| <= buffer.Length
    modifies buffer
    ensures newPosition == position + |Encode(|key|) + key|
    ensures buffer[..] == Splice(old(buffer[..]), position, Encode(|key|) + key)
  {
    hide Encode, Splice;
    newPosition := WriteVarint(buffer, position, |key|);
    newPosition := WriteRaw(buffer, newPosition, key);
    SpliceTwice(old(buffer[..]), position, Encode(|key|), key);
  }

  method WriteValue(buffer: array<uint8>, position: nat, data: Bytes, isDataHolder: bool) returns (newPosition: nat)
    requires |data| < TWO_31 && |ValueOf(data, isDataHolder)| < TWO_31
    requires position + |Encode(|ValueOf(data, isDataHolder)|) + ValueOf(data, isDataHolder)| <= buffer.Length
    modifies buffer
    ensures var v := ValueOf(data, isDataHolder);
            newPosition == position + |Encode(|v|) + v|
              && buffer[..] == Splice(old(buffer[..]), position, Encode(|v|) + v)
  {
    SizeIsLength(|data|);
    ghost var v := ValueOf(data, isDataHolder);
    assert isDataHolder ==> |v| == |data| + Size(|data|) && v == Encode(|data|) + data;
    assert !isDataHolder ==> v == data;
    hide Encode, Splice, ValueOf;
    if isDataHolder {
      newPosition := WriteVarint(buffer, position, |data| + Size(|data|));
      SpliceTwice(old(buffer[..]), position, Encode(|v|), v);
      newPosition := WriteData(buffer, newPosition, data);
    } else {
      newPosition := WriteData(buffer, position, data);
    }
  }

  method WriteData(buffer: array<uint8>, position: nat, data: Bytes) returns (newPosition: nat)
    requires |data| < TWO_32 && position + |Encode(|data|) + data| <= buffer.Length
    modifies buffer
    ensures newPosition == position + |Encode(|data|) + data|
    ensures buffer[..] == Splice(old(buffer[..]), position, Encode(|data|) + data)
  {
    hide Encode, Splice;
    newPosition := WriteVarint(buffer, position, |data|);
    newPosition := WriteRaw(buffer, newPosition, data);
    SpliceTwice(old(buffer[..]), position, Encode(|data|), data);
  }

  /** The key lies at some place in front of the given limit. */
  ghost predicate LiesAt(bytes: Bytes, keyData: KeyData, key: Bytes, limit: nat)
  {
    match keyData
    case Raw(k) => k == key
    case Encoded(start, n) =>
      && HOLDER_SIZE <= start && start + n <= limit <= |bytes| && n == |Encode(|key|) + key|
      && bytes[start..start + n] == Encode(|key|) + key
  }

  /** Writing the two parts of a record is writing the record. */
  lemma {:induction false} RecordSpliced(s: Bytes, position: nat, key: Bytes, v: Bytes)
    requires |key| < TWO_32 && |v| < TWO_32 && position + |EncodeRecord(Record(key, v))| <= |s|
    ensures var a, b := Encode(|key|) + key, Encode(|v|) + v;
            && |EncodeRecord(Record(key, v))| == |a| + |b|
            && Splice(Splice(s, position, a), position + |a|, b) == Splice(s, position, EncodeRecord(Record(key, v)))
  {
    hide Encode, Splice;
    RecordParts(key, v);
    SpliceTwice(s, position, Encode(|key|) + key, Encode(|v|) + v);
  }

  /** A key that lies in the file already is copied with its length. */
  method WriteKeyData(buffer: array<uint8>, position: nat, keyData: KeyData, ghost key: Bytes)
    returns (newPosition: nat)
    requires |key| < TWO_16 && position + |Encode(|key|) + key| <= buffer.Length
    requires LiesAt(buffer[..], keyData, key, position)
    modifies buffer
    ensures newPosition == position + |Encode(|key|) + key|
    ensures buffer[..] == Splice(old(buffer[..]), position, Encode(|key|) + key)
  {
    hide Encode, Splice;
    match keyData {
      case Raw(k) => newPosition := WriteKey(buffer, position, k);
      case Encoded(start, n) => newPosition := WriteRaw(buffer, position, buffer[start..start + n]);
    }
  }

  method WriteRecord(buffer: array<uint8>, position: nat, keyData: KeyData, ghost key: Bytes, data: Bytes,
                     isDataHolder: bool)
    returns (newPosition: nat)
    requires |key| < TWO_16 && |data| < TWO_31 && |ValueOf(data, isDataHolder)| < TWO_31
    requires position + |EncodeRecord(Record(key, ValueOf(data, isDataHolder)))| <= buffer.Length
    requires LiesAt(buffer[..], keyData, key, position)
    modifies buffer
    ensures var s := EncodeRecord(Record(key, ValueOf(data, isDataHolder)));
            newPosition == position + |s| && buffer[..] == Splice(old(buffer[..]), position, s)
  {
    hide Encode, Splice, ValueOf, EncodeRecord, LiesAt;
    RecordSpliced(buffer[..], position, key, ValueOf(data, isDataHolder));
    newPosition := WriteKeyData(buffer, position, keyData, key);
    newPosition := WriteValue(buffer, newPosition, data, isDataHolder);
  }

  /** A record written behind the log belongs to the log. */
  lemma {:induction false} SpellsSnoc(bytes: Bytes, log: seq<Record>, r: Record)
    requires Spells(bytes, log) && End(log) + |EncodeRecord(r)| <= |bytes|
    ensures Spells(Splice(bytes, End(log), EncodeRecord(r)), log + [r])
    ensures Splice(bytes, End(log), EncodeRecord(r))[..HOLDER_SIZE] == bytes[..HOLDER_SIZE]
  {
    var bytes', p, q := Splice(bytes, End(log), EncodeRecord(r)), End(log), End(log) + |EncodeRecord(r)|;
    EncodeSnoc(log, r);
    hide EncodeLog, EncodeRecord, Splice;
    assert bytes'[HOLDER_SIZE..q] == bytes'[..p][HOLDER_SIZE..] + bytes'[p..q];
    assert bytes[..p][HOLDER_SIZE..] == bytes[HOLDER_SIZE..p];
    assert bytes'[..p][..HOLDER_SIZE] == bytes'[..HOLDER_SIZE] && bytes[..p][..HOLDER_SIZE] == bytes[..HOLDER_SIZE];
  }

  lemma {:induction false} SliceOfSlice(s: Bytes, a: nat, b: nat, c: nat, d: nat)
    requires a <= b <= |s| && c <= d <= b - a
    ensures s[a..b][c..d] == s[a + c..a + d]
  {
    var x, y := s[a..b][c..d], s[a + c..a + d];
    forall i | 0 <= i < d - c
      ensures x[i] == y[i]
    {
      assert s[a..b][c + i] == s[a + (c + i)];
    }
  }

  lemma {:induction false} PartsOfRecord(r: Record)
    requires Fits(r)
    ensures var s, k := EncodeRecord(r), Size(|r.key|) + |r.key|;
            && k <= |Header(r)| <= |s| && s[0..k] == Encode(|r.key|) + r.key && s[|Header(r)|..|s|] == r.value
  {
    SizeIsLength(|r.key|);
    hide Encode;
    var key, s := Encode(|r.key|) + r.key, EncodeRecord(r);
    assert Header(r) == key + Encode(|r.value|);
    assert s == key + Encode(|r.value|) + r.value;
    assert s[0..|key|] == key && s[|Header(r)|..|s|] == r.value;
  }

  /** The encoded key in front of a record, and the value behind its header. */
  lemma {:induction false} PartsLie(bytes: Bytes, h: Holder, r: Record)
    requires Lies(bytes, h, r)
    ensures var k := Size(|r.key|) + |r.key|;
            && k <= h.computedKVSize && h.offset + h.computedKVSize + h.valueSize <= |bytes|
            && bytes[h.offset..h.offset + k] == Encode(|r.key|) + r.key
            && bytes[h.offset + h.computedKVSize..h.offset + h.computedKVSize + h.valueSize] == r.value
  {
    var n, k := |EncodeRecord(r)|, Size(|r.key|) + |r.key|;
    RecordSize(r);
    PartsOfRecord(r);
    hide EncodeRecord, Encode, Header;
    var c := h.computedKVSize as int;
    assert c == |Header(r)| && n == c + h.valueSize;
    SliceOfSlice(bytes, h.offset, h.offset + n, 0, k);
    SliceOfSlice(bytes, h.offset, h.offset + n, c, n);
    assert EncodeRecord(r)[c..n] == r.value;
  }

  /** The live records of a log, written back in some order. */
  ghost predicate WrittenBack(before: seq<Record>, after: seq<Record>, vec: seq<Bytes>)
  {
    Enumerates(vec, Contents(before).Keys) && after == Compacted(vec, Contents(before))
  }

  ghost predicate Rewritten(before: seq<Record>, after: seq<Record>)
  {
    after == before || exists vec: seq<Bytes> :: WrittenBack(before, after, vec)
  }

  /** The log has one more record, after it may have been written back. */
  ghost predicate Appended(before: seq<Record>, after: seq<Record>, r: Record)
  {
    after != [] && after[|after| - 1] == r && Rewritten(before, after[..|after| - 1])
  }

  lemma AppendsOne(before: seq<Record>, middle: seq<Record>, r: Record)
    requires Rewritten(before, middle)
    ensures Appended(before, middle + [r], r)
  {
    assert (middle + [r])[..|middle|] == middle;
  }

  class Mmkv {
    const multiProcess: bool
    const itemSizeLimit: nat
    /** The mapped file behind its first four bytes. */
    var memory: array<uint8>
    var actualSize: nat
    /** Where the output goes on. */
    var position: nat
    var dic: map<Bytes, Holder>
    /** What has been written since the last compaction. */
    ghost var log: seq<Record>

    /** The first actualSize bytes spell the log. */
    ghost predicate FileOk()
      reads this, memory
    {
      && HOLDER_SIZE <= memory.Length && memory.Length + FIXED32_SIZE < TWO_32
      && position == actualSize <= memory.Length && Small(log)
      && (actualSize == 0 ==> log == [])
      && (actualSize != 0 ==> actualSize == End(log) && Spells(memory[..], log) && HasHolder(memory[..]))
    }

    /** The index is exactly what replaying the file leaves. */
    ghost predicate Valid()
      reads this, memory
    {
      FileOk() && dic == Index(log)
    }

    /** What a reader of the store sees. */
    ghost function Store(): (m: map<Bytes, Bytes>)
      reads this
    {
      Contents(log)
    }

    constructor (multi: bool, limit: nat, file: array<uint8>)
      requires HOLDER_SIZE <= file.Length && file.Length + FIXED32_SIZE < TWO_32
      ensures Valid() && Store() == map[] && memory == file && multiProcess == multi && itemSizeLimit == limit
    {
      multiProcess, itemSizeLimit, memory := multi, limit, file;
      actualSize, position, dic, log := 0, 0, map[], [];
    }

    method GetDataForKey(key: Bytes) returns (found: bool, data: Bytes)
      requires Valid()
      ensures found <==> key in Store()
      ensures found ==> data == Store()[key]
    {
      if key !in dic {
        return false, [];
      }
      Located(key);
      var h := dic[key];
      found, data := true, memory[h.offset + h.computedKVSize..h.offset + h.computedKVSize + h.valueSize];
    }

    /** Where the file has the record of a key. */
    lemma {:induction false} Located(key: Bytes)
      requires Valid() && key in dic
      ensures actualSize != 0 && key in Store() && Store()[key] != []
      ensures Lies(memory[..], dic[key], Record(key, Store()[key]))
      ensures var h := dic[key];
              && h.offset + h.computedKVSize + h.valueSize <= actualSize
              && memory[h.offset + h.computedKVSize..h.offset + h.computedKVSize + h.valueSize] == Store()[key]
              && Size(|key|) + |key| <= h.computedKVSize
              && memory[h.offset..h.offset + Size(|key|) + |key|] == Encode(|key|) + key
    {
      hide Spells, EncodeRecord, EncodeLog, Lies, Encode, HasHolder;
      IndexLies(memory[..], log, key);
      PartsLie(memory[..], dic[key], Record(key, Store()[key]));
    }

    // ---- Compaction and growth ----

    /** The records of the live keys, sorted by offset, are the sources of the compacted log. */
    lemma {:induction false} LiveSources(vec: seq<Bytes>)
      requires Valid() && Enumerates(vec, dic.Keys) && SortedByOffset(vec, dic)
      ensures Sources(memory[..], vec, dic, Compacted(vec, Store()))
      ensures Distinct(Compacted(vec, Store())) && AllFit(Compacted(vec, Store()))
    {
      var compacted := Compacted(vec, Store());
      assert NoDuplicates(vec) && forall k :: k in dic.Keys <==> k in vec;
      hide Enumerates, Index, Contents, Spells;
      forall i | 0 <= i < |vec|
        ensures vec[i] in dic && compacted[i].value != [] && Lies(memory[..], dic[vec[i]], compacted[i])
      {
        assert vec[i] in vec;
        Located(vec[i]);
      }
      forall i, j | 0 <= i < j < |vec|
        ensures dic[vec[i]].offset + RecordSpan(dic[vec[i]]) <= dic[vec[j]].offset
      {
        assert vec[i] in vec && vec[j] in vec;
        InOrder(vec[i], vec[j]);
      }
    }

    lemma InOrder(k: Bytes, k': Bytes)
      requires Valid() && k in dic && k' in dic && k != k' && dic[k].offset <= dic[k'].offset
      ensures dic[k].offset + RecordSpan(dic[k]) <= dic[k'].offset
    {
      hide Spells, Contents, Index, EncodeRecord, EncodeLog, Encode;
      Located(k');
      EntriesApart(memory[..], log, k, k');
      PositiveSpan(dic[k'], Record(k', Store()[k']));
    }

    static lemma {:induction false} PositiveSpan(h: Holder, r: Record)
      requires Fits(r) && h == HolderOf(r, h.offset)
      ensures RecordSpan(h) > 0
    {
    }

    /** Moves the live records to the front and rewrites the index; nothing is encoded again. */
    method DoFullWriteBack(vec: seq<Bytes>, totalSize: nat, sizeHolder: uint32)
      requires Valid() && Enumerates(vec, dic.Keys) && SortedByOffset(vec, dic) && SizeHolder(sizeHolder)
      requires totalSize == End(Compacted(vec, Store())) <= memory.Length
      modifies this, memory
      ensures Valid() && Store() == old(Store()) && memory == old(memory)
      ensures log == Compacted(vec, old(Store())) && actualSize == totalSize
    {
      LiveSources(vec);
      SameEmptiness(vec, dic);
      ghost var store, compacted := Store(), Compacted(vec, Store());
      assert store.Keys == dic.Keys && NoDuplicates(vec) && Small(compacted);
      hide *;
      var writePtr, newDic := CompactFile(memory, vec, dic, sizeHolder, compacted);
      CompactedMeaning(vec, store, compacted, newDic);
      position, actualSize := writePtr, totalSize;
      log, dic := compacted, newDic;
      StaysValid();
    }

    lemma {:induction false} StaysValid()
      requires HOLDER_SIZE <= memory.Length && memory.Length + FIXED32_SIZE < TWO_32
      requires Small(log) && position == actualSize == End(log) && Spells(memory[..], log) && HasHolder(memory[..])
      requires dic == Index(log)
      ensures Valid()
    {
    }

    static lemma {:induction false} SameEmptiness(vec: seq<Bytes>, dic: map<Bytes, Holder>)
      requires Enumerates(vec, dic.Keys)
      ensures vec == [] <==> dic == map[]
    {
      assert vec != [] ==> vec[0] in vec;
      if dic != map[] {
        var k :| k in dic.Keys;
        assert k in vec;
      }
    }

    /** Moves the records, writes the size holder and works out the new index. */
    static method CompactFile(buffer: array<uint8>, vec: seq<Bytes>, dic: map<Bytes, Holder>, sizeHolder: uint32,
                              ghost compacted: seq<Record>)
      returns (writePtr: nat, newDic: map<Bytes, Holder>)
      requires HOLDER_SIZE <= buffer.Length && (vec == [] <==> dic == map[]) && NoDuplicates(vec)
      requires Sources(buffer[..], vec, dic, compacted) && Small(compacted) && SizeHolder(sizeHolder)
      modifies buffer
      ensures writePtr == End(compacted) && HasHolder(buffer[..]) && Spells(buffer[..], compacted)
      ensures newDic.Keys == dic.Keys
      ensures forall i :: 0 <= i < |vec|
               ==> Small(compacted[..i]) && newDic[vec[i]] == HolderOf(compacted[i], End(compacted[..i]))
    {
      ghost var was := buffer[..];
      SourcesInDic(was, vec, dic, compacted);
      hide EncodeLog, Sources, Gather, SectionsApart, Small, NoDuplicates, HasHolder, Spells, SizeHolder;
      writePtr := HOLDER_SIZE;
      newDic := dic;
      if dic != map[] {
        var sections := MergeSections(vec, dic, was, compacted);
        writePtr := MoveSections(buffer, sections);
        newDic := UpdateOffsets(vec, dic, was, compacted);
      } else {
        assert buffer[HOLDER_SIZE..writePtr] == [];
      }
      WriteHolder(buffer, sizeHolder, writePtr, compacted);
    }

    static lemma {:induction false} SourcesInDic(bytes: Bytes, vec: seq<Bytes>, dic: map<Bytes, Holder>,
                                                 log: seq<Record>)
      requires Sources(bytes, vec, dic, log)
      ensures |log| == |vec| && forall i :: 0 <= i < |vec| ==> vec[i] in dic
      ensures vec == [] ==> EncodeLog(log) == []
    {
    }

    /** Writes the four bytes in front of the records. */
    static method WriteHolder(buffer: array<uint8>, sizeHolder: uint32, ghost end: nat, ghost records: seq<Record>)
      requires SizeHolder(sizeHolder) && HOLDER_SIZE <= end == End(records) <= buffer.Length
      requires buffer[HOLDER_SIZE..end] == EncodeLog(records)
      modifies buffer
      ensures HasHolder(buffer[..]) && Spells(buffer[..], records)
    {
      hide EncodeLog;
      HolderLength(sizeHolder);
      ghost var body := buffer[HOLDER_SIZE..end];
      ghost var tail := buffer[HOLDER_SIZE..];
      assert body == tail[..end - HOLDER_SIZE];
      var p := WriteVarint(buffer, 0, sizeHolder);
      assert buffer[..][..HOLDER_SIZE] == Encode(sizeHolder);
      assert buffer[..][HOLDER_SIZE..] == tail;
      assert buffer[..][HOLDER_SIZE..end] == tail[..end - HOLDER_SIZE];
    }

    /** The compacted log means the same, and the rewritten index belongs to it. */
    static lemma {:induction false} CompactedMeaning(vec: seq<Bytes>, store: map<Bytes, Bytes>, log: seq<Record>,
                                                     newDic: map<Bytes, Holder>)
      requires Enumerates(vec, store.Keys) && log == Compacted(vec, store) && newDic.Keys == store.Keys
      requires Distinct(log) && Small(log)
      requires forall i :: 0 <= i < |vec| ==> Small(log[..i]) && newDic[vec[i]] == HolderOf(log[i], End(log[..i]))
      ensures Contents(log) == store && Index(log) == newDic
    {
      hide Contents, Index, Small, Distinct, Compacted, Enumerates;
      forall k
        ensures k in Contents(log) <==> k in store
        ensures k in store ==> Contents(log)[k] == store[k] && Index(log)[k] == newDic[k]
      {
        CompactedKey(vec, store, log, newDic, k);
      }
      assert Index(log).Keys == Contents(log).Keys;
    }

    static lemma {:induction false} CompactedKey(vec: seq<Bytes>, store: map<Bytes, Bytes>, log: seq<Record>,
                                                 newDic: map<Bytes, Holder>, k: Bytes)
      requires Enumerates(vec, store.Keys) && log == Compacted(vec, store) && newDic.Keys == store.Keys
      requires Distinct(log) && Small(log)
      requires forall i :: 0 <= i < |vec| ==> Small(log[..i]) && newDic[vec[i]] == HolderOf(log[i], End(log[..i]))
      ensures k in Contents(log) <==> k in store
      ensures k in store ==> Contents(log)[k] == store[k] && Index(log)[k] == newDic[k]
    {
      DistinctKeys(log, k);
      assert forall i :: 0 <= i < |log| ==> log[i].key == vec[i] && vec[i] in vec;
      hide Contents, Index, Small, Distinct, Compacted;
      if k in store {
        assert k in vec;
        var i :| 0 <= i < |vec| && vec[i] == k;
        assert log[i].key == k;
        DistinctIndex(log, i);
      }
    }

    function SpaceLeft(): (n: nat)
      reads this, memory
    {
      if memory.Length <= position then 0 else memory.Length - position
    }

    /** A file of the new size, with the old bytes in front. */
    method Truncate(fileSize: nat)
      requires FileOk() && memory.Length + FIXED32_SIZE <= fileSize < TWO_32
      modifies this`memory
      ensures fresh(memory) && memory.Length + FIXED32_SIZE == fileSize && FileOk()
      ensures memory[..old(memory.Length)] == old(memory[..])
    {
      var grown := new uint8[fileSize - FIXED32_SIZE](_ => 0);
      forall i | 0 <= i < memory.Length {
        grown[i] := memory[i];
      }
      SpellsLonger(memory[..], grown[..]);
      memory := grown;
    }

    lemma {:induction false} SpellsLonger(bytes: Bytes, bytes': Bytes)
      requires |bytes| <= |bytes'| && bytes'[..|bytes|] == bytes && HOLDER_SIZE <= |bytes|
      ensures Spells(bytes, log) ==> Spells(bytes', log)
      ensures HasHolder(bytes) ==> HasHolder(bytes')
    {
      assert bytes'[..HOLDER_SIZE] == bytes[..HOLDER_SIZE];
      hide EncodeLog;
      if End(log) <= |bytes| {
        assert bytes'[..|bytes|][HOLDER_SIZE..End(log)] == bytes'[HOLDER_SIZE..End(log)];
      }
    }

    /** Writes everything back, into a larger file if need be; growing may fail. */
    method ExpandAndWriteBack(newSize: nat, vec: seq<Bytes>, totalSize: nat, needSync: bool, canGrow: bool,
                              sizeHolder: uint32) returns (ok: bool)
      requires Valid() && Enumerates(vec, dic.Keys) && SortedByOffset(vec, dic) && SizeHolder(sizeHolder)
      requires totalSize == End(Compacted(vec, Store()))
      modifies this, memory
      ensures Valid() && Store() == old(Store()) && (memory == old(memory) || fresh(memory))
      ensures ok ==> newSize < SpaceLeft() && actualSize != 0 && log == Compacted(vec, old(Store()))
      ensures !ok ==> memory == old(memory) && memory[..] == old(memory[..]) && log == old(log)
    {
      hide Index, Contents, EncodeLog, Spells, SortedByOffset, Enumerates, HasHolder, Small, Usage;
      var fileSize := memory.Length + FIXED32_SIZE;
      var lenNeeded := totalSize + FIXED32_SIZE + newSize;
      var laterDicCount := Max(1, |dic| + 1);
      var avgItemSize := (lenNeeded + laterDicCount - 1) / laterDicCount;
      var futureUsage := Usage(avgItemSize, Max(8, laterDicCount / 2));
      if lenNeeded >= fileSize || (needSync && lenNeeded + futureUsage >= fileSize) {
        fileSize := fileSize * 2;
        while lenNeeded + futureUsage >= fileSize
          invariant fileSize >= 2 * (memory.Length + FIXED32_SIZE)
          decreases lenNeeded + futureUsage - fileSize
        {
          fileSize := fileSize * 2;
        }
        if !canGrow || fileSize >= TWO_32 {
          return false;
        }
        Truncate(fileSize);
      }
      DoFullWriteBack(vec, totalSize, sizeHolder);
      ok := true;
    }

    static function Usage(avgItemSize: nat, count: nat): (n: nat)
    {
      avgItemSize * count
    }

    /** Makes room for newSize bytes. With a non-empty index and room enough nothing moves. */
    method EnsureMemorySize(newSize: nat, canGrow: bool, sizeHolder: uint32) returns (ok: bool)
      requires Valid() && SizeHolder(sizeHolder)
      modifies this, memory
      ensures Valid() && Store() == old(Store()) && (memory == old(memory) || fresh(memory))
      ensures ok ==> newSize < SpaceLeft() && actualSize != 0
      ensures !ok || (newSize < old(SpaceLeft()) && old(dic) != map[]) ==>
                memory == old(memory) && memory[..] == old(memory[..]) && log == old(log)
      ensures newSize < old(SpaceLeft()) && old(dic) != map[] ==> ok && position == old(position)
      ensures Rewritten(old(log), log)
    {
      NonEmptyFile();
      hide Index, Contents, Spells, Enumerates, HasHolder, SizeHolder, SortedByOffset, Sources, Distinct, AllFit;
      if newSize >= SpaceLeft() || dic == map[] {
        var vec := SortByOffset(dic);
        LiveSources(vec);
        var totalSize := PrepareEncode(vec, dic, memory[..], Compacted(vec, Store()));
        ghost var before := log;
        ok := ExpandAndWriteBack(newSize, vec, totalSize, dic != map[], canGrow, sizeHolder);
        assert ok ==> WrittenBack(before, log, vec);
        return;
      }
      ok := true;
    }

    lemma {:induction false} NonEmptyFile()
      requires Valid()
      ensures dic != map[] ==> actualSize != 0
    {
    }

    // ---- Writing ----

    /** What a write promises: the file has the record, and the caller can bring the index up to date. */
    ghost predicate Wrote(store: map<Bytes, Bytes>, r: Record, holder: Holder)
      reads this, memory
    {
      && FileOk() && Store() == Applied(store, r)
      && Index(log) == if r.value == [] then dic - {r.key} else dic[r.key := holder]
    }

    /** The key data is the key, or the place in the file where the encoded key lies. */
    ghost predicate KeyDenotes(keyData: KeyData, key: Bytes)
      reads this, memory
    {
      LiesAt(memory[..], keyData, key, position)
    }

    static function RecordOf(key: Bytes, data: Bytes, isDataHolder: bool): Record
    {
      Record(key, ValueOf(data, isDataHolder))
    }

    /** The sizes that the writers compute are those of the record. */
    static method MeasureRecord(keyData: KeyData, ghost key: Bytes, data: Bytes, isDataHolder: bool)
      returns (size: nat, valueLength: uint32)
      requires |data| < TWO_31 && Fits(RecordOf(key, data, isDataHolder))
      requires match keyData case Raw(k) => k == key case Encoded(_, n) => n == |Encode(|key|) + key|
      ensures size == |EncodeRecord(RecordOf(key, data, isDataHolder))|
      ensures valueLength == |ValueOf(data, isDataHolder)|
    {
      ghost var r := RecordOf(key, data, isDataHolder);
      RecordSize(r);
      SizeIsLength(|data|);
      SizeIsLength(|key|);
      valueLength := |data|;
      if isDataHolder {
        valueLength := valueLength + Size(valueLength);
      }
      match keyData {
        case Raw(k) => size := |k| + Size(|k|);
        case Encoded(_, n) => size := n;
      }
      size := size + valueLength + Size(valueLength);
    }

    /** Appends a record, after making room for it. */
    method DoAppendDataWithKey(data: Bytes, keyData: KeyData, ghost key: Bytes, isDataHolder: bool,
                               originKeyLength: uint16,
                               canGrow: bool, sizeHolder: uint32) returns (ok: bool, holder: Holder)
      requires Valid() && SizeHolder(sizeHolder) && |data| < TWO_31 && Fits(RecordOf(key, data, isDataHolder))
      requires originKeyLength == |key| && KeyDenotes(keyData, key)
      requires keyData.Encoded? ==> dic != map[] && |EncodeRecord(RecordOf(key, data, isDataHolder))| < SpaceLeft()
      modifies this, memory
      ensures memory == old(memory) || fresh(memory)
      ensures ok ==> Wrote(old(Store()), RecordOf(key, data, isDataHolder), holder)
      ensures ok ==> Appended(old(log), log, RecordOf(key, data, isDataHolder))
      ensures ok && keyData.Encoded? ==> log == old(log) + [RecordOf(key, data, isDataHolder)]
      ensures !ok ==> Valid() && Store() == old(Store()) && log == old(log)
    {
      hide Index, Contents, EncodeLog, EncodeRecord, Encode, Spells, HasHolder, SizeHolder, ValueOf, Rewritten,
           Appended;
      ghost var r := RecordOf(key, data, isDataHolder);
      holder := Holder(0, 0, 0, 0);
      var size, valueLength := MeasureRecord(keyData, key, data, isDataHolder);
      if itemSizeLimit != 0 && size > itemSizeLimit {
        return false, holder;
      }
      ok := EnsureMemorySize(size, canGrow, sizeHolder);
      if !ok {
        return;
      }
      ghost var before := log;
      AppendsOne(old(log), log, r);
      var offset := actualSize;
      AppendRecord(data, keyData, key, isDataHolder, offset);
      holder := NewHolder(originKeyLength, valueLength, offset, r);
      AppendedMeaning(before, r, offset);
    }

    static method NewHolder(keyLength: uint16, valueLength: uint32, offset: uint32, ghost r: Record)
      returns (holder: Holder)
      requires Fits(r) && keyLength == |r.key| && valueLength == |r.value|
      ensures holder == HolderOf(r, offset)
    {
      holder := Holder(keyLength + Size(keyLength) + Size(valueLength), keyLength, valueLength, offset);
    }

    static lemma {:induction false} AppendedMeaning(before: seq<Record>, r: Record, offset: uint32)
      requires Small(before) && Small(before + [r]) && offset == End(before)
      ensures Contents(before + [r]) == Applied(Contents(before), r)
      ensures Index(before + [r]) == if r.value == [] then Index(before) - {r.key}
        else Index(before)[r.key := HolderOf(r, offset)]
    {
      ContentsSnoc(before, r);
      IndexSnoc(before, r);
    }

    /** The record's bytes go behind the log. */
    method AppendRecord(data: Bytes, keyData: KeyData, ghost key: Bytes, isDataHolder: bool, ghost offset: nat)
      requires FileOk() && actualSize == offset != 0 && |data| < TWO_31 && Fits(RecordOf(key, data, isDataHolder))
      requires KeyDenotes(keyData, key) && |EncodeRecord(RecordOf(key, data, isDataHolder))| < SpaceLeft()
      modifies this`actualSize, this`position, this`log, memory
      ensures FileOk() && log == old(log) + [RecordOf(key, data, isDataHolder)] && actualSize != 0
    {
      ghost var r, was := RecordOf(key, data, isDataHolder), memory[..];
      EncodeSnoc(log, r);
      SpellsSnoc(was, log, r);
      hide EncodeLog, EncodeRecord, Encode, Spells, HasHolder, ValueOf, Splice, LiesAt, Contents, Index;
      var p := WriteRecord(memory, position, keyData, key, data, isDataHolder);
      position, actualSize, log := p, p, log + [r];
      HolderKept(was, memory[..]);
    }

    lemma {:induction false} HolderKept(bytes: Bytes, bytes': Bytes)
      requires HOLDER_SIZE <= |bytes| == |bytes'| && bytes'[..HOLDER_SIZE] == bytes[..HOLDER_SIZE] && HasHolder(bytes)
      ensures HasHolder(bytes')
    {
    }

    /** Appends a record for a key of the index; the key is copied from its place in the file. */
    method AppendForHolder(data: Bytes, key: Bytes, isDataHolder: bool, canGrow: bool, sizeHolder: uint32)
      returns (ok: bool, holder: Holder)
      requires Valid() && key in dic && SizeHolder(sizeHolder) && |data| < TWO_31
        && Fits(RecordOf(key, data, isDataHolder))
      modifies this, memory
      ensures memory == old(memory) || fresh(memory)
      ensures ok ==> Wrote(old(Store()), RecordOf(key, data, isDataHolder), holder)
      ensures ok ==> Appended(old(log), log, RecordOf(key, data, isDataHolder))
      ensures !ok ==> Valid() && Store() == old(Store()) && Rewritten(old(log), log)
    {
      hide Index, Contents, EncodeLog, EncodeRecord, Encode, Spells, HasHolder, SizeHolder, ValueOf, Rewritten,
           Appended;
      holder := Holder(0, 0, 0, 0);
      var rawKeySize := KeySize(key);
      // Making room may move the record, so it comes before the key data.
      var size, _ := MeasureRecord(Encoded(0, rawKeySize), key, data, isDataHolder);
      ok := EnsureMemorySize(size, canGrow, sizeHolder);
      if !ok {
        return;
      }
      StillThere(key);
      AppendsOne(old(log), log, RecordOf(key, data, isDataHolder));
      var keyLength := dic[key].keySize;
      ok, holder := DoAppendDataWithKey(data, Encoded(dic[key].offset, rawKeySize), key, isDataHolder, keyLength,
                                        canGrow, sizeHolder);
    }

    method KeySize(key: Bytes) returns (rawKeySize: nat)
      requires Valid() && key in dic
      ensures rawKeySize == |Encode(|key|) + key|
    {
      Located(key);
      SizeIsLength(|key|);
      var keyLength := dic[key].keySize;
      rawKeySize := keyLength + Size(keyLength);
    }

    /** The key's record, with the key in front, lies in the file. */
    lemma {:induction false} StillThere(key: Bytes)
      requires Valid() && key in Store()
      ensures key in dic && dic != map[] && dic[key].keySize == |key|
      ensures KeyDenotes(Encoded(dic[key].offset, |Encode(|key|) + key|), key)
    {
      assert key in dic;
      Located(key);
      SizeIsLength(|key|);
    }

    method CheckSizeForOverride(size: nat) returns (enough: bool)
      requires Valid()
      ensures enough <==> size + HOLDER_SIZE <= memory.Length
    {
      enough := size + FIXED32_SIZE + HOLDER_SIZE <= memory.Length + FIXED32_SIZE;
    }

    /** Writes the only record from the beginning again, if the file can hold it as it is. */
    method DoOverrideDataWithKey(data: Bytes, keyData: KeyData, ghost key: Bytes, isDataHolder: bool,
                                 originKeyLength: uint16,
                                 canGrow: bool, sizeHolder: uint32) returns (ok: bool, holder: Holder)
      requires Valid() && SizeHolder(sizeHolder) && |data| < TWO_31 && Fits(RecordOf(key, data, isDataHolder))
      requires originKeyLength == |key| && KeyDenotes(keyData, key) && dic.Keys <= {key}
        && ValueOf(data, isDataHolder) != []
      requires keyData.Encoded? ==> HOLDER_SIZE + |EncodeRecord(RecordOf(key, data, isDataHolder))| <= memory.Length
      modifies this, memory
      ensures memory == old(memory) || fresh(memory)
      ensures ok ==> Wrote(old(Store()), RecordOf(key, data, isDataHolder), holder)
      ensures !ok ==> Valid() && Store() == old(Store())
    {
      OnlyKey(key);
      hide Index, Contents, EncodeLog, EncodeRecord, Encode, Spells, HasHolder, ValueOf, LiesAt;
      ghost var r, store := RecordOf(key, data, isDataHolder), Store();
      holder := Holder(0, 0, 0, 0);
      KeyMeasures(keyData, key);
      var size, valueLength := MeasureRecord(keyData, key, data, isDataHolder);
      if itemSizeLimit != 0 && size > itemSizeLimit {
        return false, holder;
      }
      var enough := CheckSizeForOverride(size);
      if !enough {
        ok, holder := DoAppendDataWithKey(data, keyData, key, isDataHolder, originKeyLength, canGrow, sizeHolder);
        return;
      }
      var p := RewriteFile(memory, keyData, key, data, isDataHolder, sizeHolder, position);
      holder := NewHolder(originKeyLength, valueLength, HOLDER_SIZE, r);
      position, actualSize, log := p, p, [r];
      SingleRecord(r, store, dic);
      SingleFile(r);
      ok := true;
    }

    lemma {:induction false} KeyMeasures(keyData: KeyData, key: Bytes)
      requires KeyDenotes(keyData, key)
      ensures match keyData case Raw(k) => k == key case Encoded(_, n) => n == |Encode(|key|) + key|
    {
    }

    lemma {:induction false} SingleFile(r: Record)
      requires HOLDER_SIZE <= memory.Length && memory.Length + FIXED32_SIZE < TWO_32 && Fits(r) && log == [r]
      requires position == actualSize == HOLDER_SIZE + |EncodeRecord(r)| <= memory.Length
      requires memory[HOLDER_SIZE..actualSize] == EncodeRecord(r) && HasHolder(memory[..])
      ensures FileOk()
    {
      OneRecord(r);
    }

    static lemma {:induction false} OneRecord(r: Record)
      ensures EncodeLog([r]) == EncodeRecord(r) && End([]) == HOLDER_SIZE && End([r]) == HOLDER_SIZE + |EncodeRecord(r)|
    {
      hide EncodeRecord;
      EncodeSnoc([], r);
      assert [] + [r] == [r];
    }

    lemma {:induction false} OnlyKey(key: Bytes)
      requires Valid() && dic.Keys <= {key}
      ensures Store().Keys <= {key} && Store().Keys == dic.Keys
    {
    }

    static lemma {:induction false} SingleRecord(r: Record, store: map<Bytes, Bytes>, dic: map<Bytes, Holder>)
      requires Fits(r) && r.value != [] && store.Keys <= {r.key} && dic.Keys <= {r.key}
      requires HOLDER_SIZE + |EncodeRecord(r)| < TWO_32
      ensures Small([r]) && Contents([r]) == Applied(store, r)
      ensures Index([r]) == dic[r.key := HolderOf(r, HOLDER_SIZE)]
    {
      OneRecord(r);
      assert [r][..0] == [];
      assert Contents([r]) == map[r.key := r.value];
      assert Index([r]) == map[r.key := HolderOf(r, HOLDER_SIZE)];
    }

    /** The size holder and one record, from the beginning of the file; the key may be copied onto itself. */
    static method RewriteFile(buffer: array<uint8>, keyData: KeyData, ghost key: Bytes, data: Bytes, isDataHolder: bool,
                              sizeHolder: uint32, ghost limit: nat) returns (newPosition: nat)
      requires SizeHolder(sizeHolder) && |key| < TWO_16 && |data| < TWO_31 && |ValueOf(data, isDataHolder)| < TWO_31
      requires HOLDER_SIZE + |EncodeRecord(RecordOf(key, data, isDataHolder))| <= buffer.Length
      requires LiesAt(buffer[..], keyData, key, limit)
      modifies buffer
      ensures newPosition == HOLDER_SIZE + |EncodeRecord(RecordOf(key, data, isDataHolder))| && HasHolder(buffer[..])
      ensures buffer[HOLDER_SIZE..newPosition] == EncodeRecord(RecordOf(key, data, isDataHolder))
    {
      ghost var v := ValueOf(data, isDataHolder);
      RecordParts(key, v);
      HolderLength(sizeHolder);
      ghost var was := buffer[..];
      hide EncodeRecord, Encode, ValueOf, SizeHolder;
      newPosition := WriteVarint(buffer, 0, sizeHolder);
      assert buffer[..][HOLDER_SIZE..] == was[HOLDER_SIZE..];
      newPosition := RewriteKey(buffer, keyData, key, was, limit);
      ghost var front := buffer[..newPosition];
      newPosition := WriteValue(buffer, newPosition, data, isDataHolder);
      FrontKept(buffer[..], front, newPosition, Encode(|key|) + key, Encode(|v|) + v, sizeHolder);
    }

    static method RewriteKey(buffer: array<uint8>, keyData: KeyData, ghost key: Bytes, ghost was: Bytes,
                             ghost limit: nat) returns (newPosition: nat)
      requires |key| < TWO_16 && LiesAt(was, keyData, key, limit) && |was| == buffer.Length
      requires HOLDER_SIZE + |Encode(|key|) + key| <= buffer.Length && buffer[..][HOLDER_SIZE..] == was[HOLDER_SIZE..]
      modifies buffer
      ensures newPosition == HOLDER_SIZE + |Encode(|key|) + key|
      ensures buffer[..][..HOLDER_SIZE] == old(buffer[..])[..HOLDER_SIZE]
      ensures buffer[..][HOLDER_SIZE..newPosition] == Encode(|key|) + key
    {
      hide Encode;
      match keyData {
        case Raw(k) => newPosition := WriteKey(buffer, HOLDER_SIZE, k);
        case Encoded(start, n) =>
          SliceOfDrop(buffer[..], HOLDER_SIZE, start, start + n);
          SliceOfDrop(was, HOLDER_SIZE, start, start + n);
          MoveBytes(buffer, HOLDER_SIZE, start, n);
          newPosition := HOLDER_SIZE + n;
      }
    }

    static lemma {:induction false} FrontKept(bytes: Bytes, front: Bytes, end: nat, k: Bytes, v: Bytes,
                                              sizeHolder: uint32)
      requires |front| == HOLDER_SIZE + |k| && end == |front| + |v| <= |bytes|
      requires bytes[..|front|] == front && bytes[|front|..end] == v
      requires front[HOLDER_SIZE..] == k && front[..HOLDER_SIZE] == Encode(sizeHolder) && SizeHolder(sizeHolder)
      ensures bytes[HOLDER_SIZE..end] == k + v && HasHolder(bytes)
    {
      hide Encode;
      assert bytes[HOLDER_SIZE..end] == bytes[..|front|][HOLDER_SIZE..] + bytes[|front|..end];
      assert bytes[..HOLDER_SIZE] == bytes[..|front|][..HOLDER_SIZE];
    }

    /** Overwrites the record of the only key. */
    method OverrideForHolder(data: Bytes, key: Bytes, isDataHolder: bool, canGrow: bool, sizeHolder: uint32)
      returns (ok: bool, holder: Holder)
      requires Valid() && dic.Keys == {key} && SizeHolder(sizeHolder) && |data| < TWO_31
        && Fits(RecordOf(key, data, isDataHolder))
      requires ValueOf(data, isDataHolder) != []
      modifies this, memory
      ensures memory == old(memory) || fresh(memory)
      ensures ok ==> Wrote(old(Store()), RecordOf(key, data, isDataHolder), holder)
      ensures !ok ==> Valid() && Store() == old(Store())
    {
      hide Index, Contents, EncodeLog, EncodeRecord, Encode, Spells, HasHolder, SizeHolder, ValueOf;
      assert key in dic;
      var rawKeySize := KeySize(key);
      var size, _ := MeasureRecord(Encoded(0, rawKeySize), key, data, isDataHolder);
      var enough := CheckSizeForOverride(size);
      if !enough {
        ok, holder := AppendForHolder(data, key, isDataHolder, canGrow, sizeHolder);
        return;
      }
      OnlyKey(key);
      StillThere(key);
      var keyLength := dic[key].keySize;
      ok, holder := DoOverrideDataWithKey(data, Encoded(dic[key].offset, rawKeySize), key, isDataHolder, keyLength,
                                          canGrow, sizeHolder);
    }

    // ---- The operations ----

    /** Sets a key; if it cannot be written, nothing is lost. */
    method SetDataForKey(data: Bytes, key: Bytes, isDataHolder: bool, canGrow: bool, sizeHolder: uint32)
      returns (ok: bool)
      requires Valid() && SizeHolder(sizeHolder) && |data| < TWO_31
      requires key != [] && (isDataHolder || data != []) ==> Fits(RecordOf(key, data, isDataHolder))
      modifies this, memory
      ensures Valid() && (memory == old(memory) || fresh(memory))
      ensures Store() == if ok then old(Store())[key := ValueOf(data, isDataHolder)] else old(Store())
      ensures ok ==> key != [] && ValueOf(data, isDataHolder) != []
      ensures multiProcess ==>
                if ok then Appended(old(log), log, RecordOf(key, data, isDataHolder)) else Rewritten(old(log), log)
    {
      hide Index, Contents, EncodeLog, EncodeRecord, Encode, Spells, HasHolder, SizeHolder, LiesAt;
      if (!isDataHolder && |data| == 0) || |key| == 0 {
        return false;
      }
      assert ValueOf(data, isDataHolder) != [];
      hide Index, Contents, EncodeLog, EncodeRecord, Encode, Spells, HasHolder, SizeHolder, ValueOf, LiesAt;
      var holder;
      if key in dic {
        ok, holder := WriteExisting(data, key, isDataHolder, canGrow, sizeHolder);
      } else {
        ok, holder := WriteNew(data, key, isDataHolder, canGrow, sizeHolder);
      }
      if ok {
        dic := dic[key := holder];
      }
    }

    method WriteExisting(data: Bytes, key: Bytes, isDataHolder: bool, canGrow: bool, sizeHolder: uint32)
      returns (ok: bool, holder: Holder)
      requires Valid() && key in dic && SizeHolder(sizeHolder) && |data| < TWO_31
        && Fits(RecordOf(key, data, isDataHolder))
      requires ValueOf(data, isDataHolder) != []
      modifies this, memory
      ensures memory == old(memory) || fresh(memory)
      ensures ok ==> Wrote(old(Store()), RecordOf(key, data, isDataHolder), holder)
      ensures !ok ==> Valid() && Store() == old(Store())
      ensures multiProcess ==>
                if ok then Appended(old(log), log, RecordOf(key, data, isDataHolder)) else Rewritten(old(log), log)
    {
      hide *;
      var onlyOneKey := !multiProcess && |dic| == 1;
      if onlyOneKey {
        OneEntry(dic, key);
        ok, holder := OverrideForHolder(data, key, isDataHolder, canGrow, sizeHolder);
      } else {
        ok, holder := AppendForHolder(data, key, isDataHolder, canGrow, sizeHolder);
      }
    }

    method WriteNew(data: Bytes, key: Bytes, isDataHolder: bool, canGrow: bool, sizeHolder: uint32)
      returns (ok: bool, holder: Holder)
      requires Valid() && key !in dic && SizeHolder(sizeHolder) && |data| < TWO_31
        && Fits(RecordOf(key, data, isDataHolder))
      requires ValueOf(data, isDataHolder) != [] && |key| < TWO_16
      modifies this, memory
      ensures memory == old(memory) || fresh(memory)
      ensures ok ==> Wrote(old(Store()), RecordOf(key, data, isDataHolder), holder)
      ensures !ok ==> Valid() && Store() == old(Store())
      ensures multiProcess ==>
                if ok then Appended(old(log), log, RecordOf(key, data, isDataHolder)) else Rewritten(old(log), log)
    {
      RawDenotes(key);
      LogStays();
      hide *;
      var needOverride := !multiProcess && dic == map[] && actualSize > 0;
      if needOverride {
        ok, holder := DoOverrideDataWithKey(data, Raw(key), key, isDataHolder, |key|, canGrow, sizeHolder);
      } else {
        ok, holder := DoAppendDataWithKey(data, Raw(key), key, isDataHolder, |key|, canGrow, sizeHolder);
      }
    }

    lemma {:induction false} RawDenotes(key: Bytes)
      ensures KeyDenotes(Raw(key), key)
    {
    }

    static lemma {:induction false} OneEntry(dic: map<Bytes, Holder>, key: Bytes)
      requires key in dic && |dic| == 1
      ensures dic.Keys == {key}
    {
      var others := dic.Keys - {key};
      assert |dic.Keys| == 1;
      assert dic.Keys == others + {key};
      assert |others| == 0;
    }

    /** Removes a key by appending a record without a value. */
    method RemoveDataForKey(key: Bytes, canGrow: bool, sizeHolder: uint32) returns (ok: bool)
      requires Valid() && SizeHolder(sizeHolder)
      modifies this, memory
      ensures Valid() && (memory == old(memory) || fresh(memory))
      ensures Store() == if ok then old(Store()) - {key} else old(Store())
      ensures ok ==> key in old(Store())
      ensures if ok then Appended(old(log), log, Record(key, [])) else Rewritten(old(log), log)
    {
      hide Rewritten, Appended, Index, Contents, EncodeLog, EncodeRecord, Encode, Spells, HasHolder, SizeHolder, LiesAt,
           Fits,
           RecordOf, Applied;
      LogStays();
      if |key| == 0 {
        return false;
      }
      if key in dic {
        Tombstone(key);
        var holder;
        ok, holder := AppendForHolder([], key, false, canGrow, sizeHolder);
        if ok {
          dic := dic - {key};
        }
        return;
      }
      ok := false;
    }

    lemma {:induction false} LogStays()
      ensures Rewritten(log, log)
    {
    }

    /** The record without a value that removes a key of the index. */
    lemma {:induction false} Tombstone(key: Bytes)
      requires Valid() && key in dic
      ensures key in Store() && Fits(Record(key, [])) && RecordOf(key, [], false) == Record(key, [])
      ensures forall store: map<Bytes, Bytes> :: Applied(store, Record(key, [])) == store - {key}
    {
      Located(key);
      hide Index, Contents, EncodeLog, Spells, HasHolder;
    }
  }
}
