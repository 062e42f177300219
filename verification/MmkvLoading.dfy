/** A process that catches up with the bytes of the shared file. */
module MmkvLoading {
  import opened Machine
  import opened MmkvLog
  import opened MmkvStore
  import opened MmkvReader
  import opened MmkvSharing

  datatype MetaInfo = MetaInfo(sequence: nat, actualSize: nat, crcDigest: int)

  /** The mapped bytes, behind the first four, and the meta information are those of the file. */
  ghost predicate Shows(c: Checksum, bytes: Bytes, meta: MetaInfo, f: File)
  {
    && FileOk(c, f) && meta == MetaInfo(f.sequence, f.size, f.crc)
    && (f.size != 0 ==> f.size <= |bytes| && bytes[..f.size] == Content(f) && HasHolder(bytes))
  }

  lemma ShownIsComplete(c: Checksum, bytes: Bytes, meta: MetaInfo, f: File)
    requires Shows(c, bytes, meta, f) && f.size != 0
    ensures Complete(bytes, f.size, f.log)
  {
    hide EncodeLog, Index, HasHolder;
    assert bytes[HOLDER_SIZE..f.size] == bytes[..f.size][HOLDER_SIZE..];
    assert Content(f)[HOLDER_SIZE..] == EncodeLog(f.log);
  }

  class Instance {
    const checksum: Checksum
    var needLoadFromFile: bool
    var metaInfo: MetaInfo
    var actualSize: nat
    var crcDigest: int
    var dic: map<Bytes, Holder>

    ghost predicate Valid()
      reads this
    {
      !needLoadFromFile ==> actualSize == metaInfo.actualSize && crcDigest == metaInfo.crcDigest
    }

    /** What this process remembers of its last look at the file. */
    ghost function Memory(): Process
      reads this
    {
      if needLoadFromFile then Unloaded else Loaded(metaInfo.sequence, metaInfo.actualSize, metaInfo.crcDigest, dic)
    }

    constructor (c: Checksum)
      ensures Valid() && checksum == c && Memory() == Unloaded
    {
      checksum, needLoadFromFile, metaInfo, actualSize, crcDigest, dic := c, true, MetaInfo(0, 0, 0), 0, 0, map[];
    }

    method ClearMemoryCache()
      modifies this
      ensures needLoadFromFile && dic == map[]
    {
      needLoadFromFile, dic, actualSize, crcDigest := true, map[], 0, 0;
    }

    method CheckFileCRCValid(file: array<uint8>, size: nat, crc: int) returns (ok: bool)
      requires size <= file.Length
      modifies this`crcDigest
      ensures crcDigest == checksum.extend(checksum.start, file[..size]) && (ok <==> crcDigest == crc)
    {
      crcDigest := checksum.extend(checksum.start, file[..size]);
      ok := crcDigest == crc;
    }

    /** Replays the whole file, if it is what the meta information says. */
    method LoadFromFile(file: array<uint8>, meta: MetaInfo, ghost f: File)
      requires Shows(checksum, file[..], meta, f)
      modifies this
      ensures Valid() && Memory() == Loaded(f.sequence, f.size, f.crc, Index(f.log))
    {
      hide Index, EncodeLog, Small, HasHolder;
      metaInfo := meta;
      actualSize := metaInfo.actualSize;
      var load := false;
      EmptyIndex(f);
      assert f.size != 0 ==> file[..][..f.size] == file[..f.size];
      if actualSize <= file.Length {
        load := CheckFileCRCValid(file, actualSize, metaInfo.crcDigest);
      }
      if load && actualSize > 0 {
        ShownIsComplete(checksum, file[..], meta, f);
        assert f.log[..0] == [];
        ResumesAtStart(f.log);
        dic := DecodeOneMap(file, actualSize, 0, map[], false, f.log, 0);
      } else {
        dic := map[];
        metaInfo := metaInfo.(actualSize := 0, crcDigest := 0);
        actualSize, crcDigest := 0, 0;
      }
      needLoadFromFile := false;
    }

    static lemma EmptyIndex(f: File)
      requires Small(f.log)
      ensures f.log == [] ==> Index(f.log) == map[]
      ensures f.size != 0 && f.size == End(f.log) ==> f.size < TWO_32
    {
    }

    static lemma ResumesAtStart(log: seq<Record>)
      ensures Resumes(log, 0, 0, map[], false)
    {
      assert log[..0] == [];
    }

    /** Replays what has been added since, or the whole file if that does not fit together. */
    method PartialLoadFromFile(file: array<uint8>, meta: MetaInfo, ghost f: File, ghost m: nat)
      requires Valid() && !needLoadFromFile && Shows(checksum, file[..], meta, f)
      requires metaInfo.sequence == f.sequence && metaInfo.actualSize != 0 && Saw(checksum, f, Memory(), m)
      modifies this
      ensures Valid() && Memory() == Loaded(f.sequence, f.size, f.crc, Index(f.log))
    {
      hide Index, EncodeLog, Small, HasHolder;
      EmptyIndex(f);
      metaInfo := meta;
      var oldActualSize := actualSize;
      actualSize := metaInfo.actualSize;
      if actualSize > 0 {
        if actualSize <= file.Length {
          if actualSize > oldActualSize {
            crcDigest := checksum.extend(crcDigest, file[oldActualSize..actualSize]);
            if crcDigest == metaInfo.crcDigest {
              ShownIsComplete(checksum, file[..], meta, f);
              dic := DecodeOneMap(file, actualSize, oldActualSize, dic, true, f.log, m);
              return;
            }
          }
        }
      }
      ClearMemoryCache();
      LoadFromFile(file, meta, f);
    }

    /** Catches up with what other processes have written; the process then remembers what the file says. */
    method CheckLoadData(file: array<uint8>, meta: MetaInfo, ghost f: File)
      requires Valid() && Continues(checksum) && Shows(checksum, file[..], meta, f) && ProcessOk(checksum, f, Memory())
      modifies this
      ensures Valid() && Memory() == MmkvSharing.CheckLoadData(checksum, f, old(Memory()))
      ensures Memory() == Loaded(f.sequence, f.size, f.crc, Index(f.log))
    {
      hide Index, EncodeLog, Small, HasHolder, Saw;
      CatchesUp(checksum, f, Memory());
      if needLoadFromFile {
        needLoadFromFile := false;
        LoadFromFile(file, meta, f);
        return;
      }
      if metaInfo.sequence != meta.sequence {
        ClearMemoryCache();
        LoadFromFile(file, meta, f);
      } else if metaInfo.crcDigest != meta.crcDigest || metaInfo.actualSize != meta.actualSize {
        ghost var m: nat :| Saw(checksum, f, Memory(), m);
        PartialLoadFromFile(file, meta, f, m);
      }
    }
  }
}
