/** Reading an encrypted file through a window of decrypted bytes. */
module MmkvCrypt {
  import opened Machine
  import opened Varint
  import opened MmkvLog
  import opened MmkvReader
  import opened Cfb

  const AES_IV_LEN: nat := 16

  function Least(a: nat, b: nat): nat
  {
    if a < b then a else b
  }

  /** The place in a block. */
  function InBlock(n: nat): nat
  {
    n % 16
  }

  predicate EndsBlock(n: nat)
  {
    n % 16 == 0
  }

  /** Rounded up to whole blocks. */
  function Blocks(n: nat): (r: nat)
    ensures r % 16 == 0 && n <= r < n + 16
  {
    (n + 15) / 16 * 16
  }

  /** What follows in the plaintext is the decryption of what follows in the ciphertext. */
  lemma PlainSlice(key: BlockCipher, st: Status, s: Bytes, i: nat, j: nat)
    requires st.Valid() && i <= j <= |s|
    ensures Plain(key, st, s)[i..j] == Plain(key, After(key, st, s[..i]), s[i..j])
    ensures After(key, st, s[..j]) == After(key, After(key, st, s[..i]), s[i..j])
  {
    hide *;
    assert s == s[..j] + s[j..] && s[..j] == s[..i] + s[i..j];
    Concat(key, st, s[..j], s[j..]);
    Concat(key, st, s[..i], s[i..j]);
    var p, q := Plain(key, st, s[..j]), Plain(key, st, s[..i]);
    assert Plain(key, st, s)[..j] == p && p[i..] == Plain(key, After(key, st, s[..i]), s[i..j]);
    assert Plain(key, st, s)[i..j] == Plain(key, st, s)[..j][i..];
  }

  /** How much a call has to decrypt so that the decrypter ends at a block, and not more than there is. */
  function Aligned(wanted: nat, number: nat, left: nat): (r: nat)
    requires number < 16
    ensures r <= left && Least(wanted, left) <= r
    ensures r == left || EndsBlock(number + r)
  {
    var n :=
      if number != 0 then
        var align := 16 - number;
        if wanted < align then align else Blocks(wanted - align) + align
      else Blocks(wanted);
    Least(left, n)
  }

  /** An encrypted file: its bytes, the key, and the status that its first byte is decrypted with. */
  datatype File = File(cipher: Bytes, key: BlockCipher, start: Status)
  {
    ghost predicate Valid() { start.Valid() && start.number == 0 && Inverse(key) }

    ghost function Text(): (p: Bytes)
      requires start.Valid()
      ensures |p| == |cipher|
    {
      Plain(key, start, cipher)
    }

    /** The status of a decrypter that has come to position p. */
    ghost function StatusAt(p: nat): (st: Status)
      requires start.Valid() && p <= |cipher|
      ensures st.Valid()
    {
      After(key, start, cipher[..p])
    }

    lemma NextPart(i: nat, j: nat)
      requires Valid() && i <= j <= |cipher|
      ensures After(key, StatusAt(i), cipher[i..j]) == StatusAt(j)
        && Plain(key, StatusAt(i), cipher[i..j]) == Text()[i..j]
    {
      PlainSlice(key, start, cipher, i, j);
    }

    lemma NumberAt(p: nat)
      requires Valid() && p <= |cipher|
      ensures StatusAt(p).number == InBlock(p) && (EndsBlock(p) ==> StatusAt(p).number == 0)
    {
      NumberAfter(key, start, cipher[..p]);
    }
  }

  /** Slices of slices. */
  lemma SliceOfTake(s: Bytes, n: nat, i: nat, j: nat)
    requires i <= j <= n <= |s|
    ensures s[..n][i..j] == s[i..j]
  {
  }

  lemma TakeOfSlice(s: Bytes, i: nat, j: nat, n: nat)
    requires i <= j <= |s| && i + n <= j
    ensures s[i..j][..n] == s[i..i + n]
  {
  }

  lemma DropOfSlice(s: Bytes, i: nat, j: nat, n: nat)
    requires i + n <= j <= |s|
    ensures s[i..j][n..] == s[i + n..j]
  {
  }

  lemma Adjoin(s: Bytes, i: nat, j: nat, k: nat)
    requires i <= j <= k <= |s|
    ensures s[i..k] == s[i..j] + s[j..k]
  {
  }

  /** The buffer with a part written at position n. */
  function Behind(buffer: Bytes, n: nat, part: Bytes): (r: Bytes)
    requires n + |part| <= |buffer|
    ensures |r| == |buffer|
  {
    buffer[..n] + part + buffer[n + |part|..]
  }

  /** A window that ends where the other part begins, with that part behind it. */
  lemma Prolong(buffer: Bytes, n: nat, part: Bytes, a: nat)
    requires a <= n && n + |part| <= |buffer|
    ensures Behind(buffer, n, part)[a..n + |part|] == buffer[a..n] + part
  {
    var r := Behind(buffer, n, part);
    assert r[a..n] == buffer[a..n] && r[n..n + |part|] == part;
    Adjoin(r, a, n, n + |part|);
  }

  /** How an encrypted store keeps a value: in the entry itself, in memory of its own, or in the file, with the status
      in which decrypting the record starts. */
  datatype HolderCrypt =
    | Direct(paddedValue: Bytes)
    | Memory(value: Bytes)
    | Offset(pbKeyValueSize: uint8, keySize: uint16, valueSize: uint32, offset: uint32, cryptStatus: Status)

  const SMALL_BUFFER_SIZE: nat := 27
  const MEDIUM_BUFFER_SIZE: nat := 256

  function RealValueSize(h: HolderCrypt): nat
  {
    match h
    case Direct(v) => |v|
    case Memory(v) => |v|
    case Offset(_, _, n, _, _) => n
  }

  function HolderFor(v: Bytes): HolderCrypt
  {
    if |v| <= SMALL_BUFFER_SIZE then Direct(v) else Memory(v)
  }

  lemma SizeMonotone(m: uint32, n: uint32)
    requires m <= n
    ensures Size(m) <= Size(n)
  {
  }

  /** The positions of a reader: in the file, of the decrypter, in the buffer, its filled length, and from where on the
      window is right. */
  datatype Places = Places(position: nat, decrypted: nat, inBuffer: nat, filled: nat, kept: nat)
  {
    /** The place in the file of the first byte of the buffer. */
    function Base(): int { decrypted - filled }

    /** The window is the plaintext up to the place where the decrypter stands, and in step with the position. */
    ghost predicate InStep(file: File, buffer: Bytes, st: Status)
    {
      && file.Valid() && position <= |file.cipher| && decrypted <= |file.cipher|
      && inBuffer <= filled <= |buffer| && position == Base() + inBuffer
      && st == file.StatusAt(decrypted) && Base() <= kept <= position
      && buffer[kept - Base()..filled] == file.Text()[kept..decrypted]
    }
  }

  /** The window with the next part of the plaintext behind it. */
  lemma WindowGrows(at: Places, file: File, buffer: Bytes, part: Bytes)
    requires file.Valid() && at.InStep(file, buffer, file.StatusAt(Least(at.decrypted, |file.cipher|)))
    requires at.decrypted + |part| <= |file.cipher| && at.filled + |part| <= |buffer|
    requires part == file.Text()[at.decrypted..at.decrypted + |part|]
    ensures at.(decrypted := at.decrypted + |part|, filled := at.filled + |part|)
              .InStep(file, Behind(buffer, at.filled, part), file.StatusAt(at.decrypted + |part|))
  {
    hide File.Text, File.StatusAt, Behind;
    Adjoin(file.Text(), at.kept, at.decrypted, at.decrypted + |part|);
    Prolong(buffer, at.filled, part, at.kept - at.Base());
  }

  class CodedInputDataCrypt {
    const bytes: Bytes
    const size: nat
    const decrypter: AesCrypt
    ghost const file: File
    var position: nat
    /** Everything before it has been decrypted. */
    var decryptPosition: nat
    /** Its length is the size of the memory. */
    var buffer: Bytes
    var bufferPosition: nat
    var decryptLength: nat
    /** What lies before it in the buffer may be dropped. */
    var discardPosition: nat
    /** The window is right from here on. */
    ghost var kept: nat

    ghost function At(): Places
      reads this
    {
      Places(position, decryptPosition, bufferPosition, decryptLength, kept)
    }

    ghost predicate Linked()
    {
      file.Valid() && |file.cipher| == size <= |bytes| && bytes[..size] == file.cipher && decrypter.key == file.key
    }

    ghost predicate Valid()
      reads this, decrypter
    {
      Linked() && decrypter.Valid() && |buffer| >= 2 * AES_IV_LEN && At().InStep(file, buffer, decrypter.CurStatus())
    }

    lemma Bounds()
      requires Valid()
      ensures position <= size && decryptPosition <= size && bufferPosition <= decryptLength <= |buffer|
      ensures position == decryptPosition - decryptLength + bufferPosition
      ensures decryptPosition - decryptLength <= kept <= position && |buffer| >= 2 * AES_IV_LEN
      ensures Linked() && decrypter.Valid() && file.start.Valid() && |file.cipher| == size
      ensures decrypter.CurStatus() == file.StatusAt(decryptPosition)
    {
    }

    /** Nothing that is still needed would be dropped. */
    ghost predicate Recording()
      reads this
    {
      discardPosition <= kept - (decryptPosition - decryptLength)
    }

    /** The decrypter stands at a block or at the end. */
    ghost predicate AtBlock()
      reads this, decrypter
    {
      decryptPosition == size || decrypter.number == 0
    }

    ghost function Rest(): (s: Bytes)
      requires Valid()
      reads this, decrypter
      ensures |s| == size - position
    {
      file.Text()[position..]
    }

    /** The reader at the beginning of the file; the decrypter may have been left in the middle of a block. */
    constructor (data: Bytes, length: nat, crypt: AesCrypt, ghost file: File)
      requires crypt.Valid() && length <= |data|
      ensures bytes == data && size == length && decrypter == crypt && this.file == file
      ensures position == decryptPosition == kept == 0 && |buffer| == 2 * AES_IV_LEN
      ensures bufferPosition == decryptLength == discardPosition == crypt.number
    {
      bytes, size, decrypter, this.file := data, length, crypt, file;
      position, decryptPosition, kept := 0, 0, 0;
      bufferPosition := crypt.number;
      discardPosition := crypt.number;
      decryptLength := crypt.number;
      buffer := seq(2 * AES_IV_LEN, i => 0);
    }

    /** Where the decrypter stands before the reader is moved there. */
    ghost predicate StandsAt(p: nat)
      reads this, decrypter
    {
      && Linked() && decrypter.Valid() && |buffer| == 2 * AES_IV_LEN && position == decryptPosition == kept == 0
      && bufferPosition == decryptLength == discardPosition == decrypter.number
      && p <= size && decrypter.CurStatus() == file.StatusAt(p)
    }

    lemma StandsInBlock(p: nat)
      requires StandsAt(p)
      ensures InBlock(p) == decrypter.number <= p
    {
      file.NumberAt(p);
      assert decrypter.CurStatus().number == decrypter.number;
    }

    lemma NothingDecryptedYet()
      requires Linked() && decrypter.Valid() && decryptPosition <= size && bufferPosition == decryptLength <= |buffer|
      requires |buffer| >= 2 * AES_IV_LEN
      requires decrypter.CurStatus() == file.StatusAt(decryptPosition) && kept == position == decryptPosition
      ensures Valid()
    {
      assert buffer[decryptLength..decryptLength] == [] == file.Text()[kept..decryptPosition];
    }

    /** At the beginning nothing has to be moved. */
    lemma StandsAtStart()
      requires StandsAt(0)
      ensures Valid() && Recording() && bufferPosition == decryptLength
    {
      hide File.Text, File.StatusAt, Places.InStep;
      StandsInBlock(0);
      NothingDecryptedYet();
    }

    /** Moves to where the decrypter already is. */
    method Seek(addedSize: nat) returns (r: Result<()>)
      requires StandsAt(addedSize)
      modifies this
      ensures r.Ok? && Valid() && Recording() && position == addedSize && bufferPosition == decryptLength
    {
      hide InBlock, Linked, File.Text, File.StatusAt, Places.InStep;
      StandsInBlock(addedSize);
      position := position + addedSize;
      decryptPosition := decryptPosition + addedSize;
      kept := position;
      assert Recording();
      if position > size {
        return Err(Truncated);
      }
      assert InBlock(position) == decrypter.number;
      NothingDecryptedYet();
      return Ok(());
    }

    /** Decrypts so much that `length` bytes, or all that are left, lie behind the position in the buffer. */
    method ConsumeBytes(length: nat, discardPreData: bool)
      requires Valid() && (discardPreData || Recording())
        && (AtBlock() || (bufferPosition == decryptLength && length > 0))
      modifies this, decrypter
      ensures Valid() && Recording() && AtBlock()
      ensures position == old(position) && kept == if discardPreData then position else old(kept)
      ensures decryptLength - bufferPosition >= Least(length, size - position)
    {
      hide Linked, Places.InStep, EndsBlock, Aligned;
      if discardPreData {
        Bounds();
        discardPosition := bufferPosition;
        Forget();
      }
      Bounds();
      var decryptedBytesLeft := decryptLength - bufferPosition;
      if decryptedBytesLeft >= length {
        return;
      }
      var more := Aligned(length - decryptedBytesLeft, decrypter.number, size - decryptPosition);
      MakeRoom(more);
      Fill(more);
      Bounds();
    }

    /** The window may begin at the position. */
    ghost method Forget()
      requires Valid()
      modifies this`kept
      ensures Valid() && kept == position
    {
      hide File.Text, File.StatusAt, Inverse;
      var base := decryptPosition - decryptLength;
      LaterWindow(buffer, kept - base, decryptLength, file.Text(), kept, decryptPosition, position - kept);
      kept := position;
    }

    /** Moves what is still needed to the front, and gets more memory if that is not enough. */
    method MakeRoom(length: nat)
      requires Valid() && Recording()
      modifies this
      ensures Valid() && Recording() && |buffer| - decryptLength >= length
      ensures position == old(position) && kept == old(kept) && decryptPosition == old(decryptPosition)
      ensures decryptLength - bufferPosition == old(decryptLength - bufferPosition)
    {
      hide Linked, Places.InStep;
      Bounds();
      var bytesLeftInBuffer := |buffer| - decryptLength;
      if bytesLeftInBuffer < length && discardPosition > 0 {
        var posToMove := discardPosition / 16 * 16;
        if posToMove != 0 {
          WindowMoves(At(), posToMove);
          var sizeToMove := decryptLength - posToMove;
          buffer := buffer[posToMove..decryptLength] + buffer[sizeToMove..];
          bufferPosition := bufferPosition - posToMove;
          decryptLength := decryptLength - posToMove;
          discardPosition := 0;
          bytesLeftInBuffer := |buffer| - decryptLength;
        }
      }
      if bytesLeftInBuffer < length {
        WindowStays(At(), seq(length, i => 0));
        buffer := buffer + seq(length, i => 0);
      }
    }

    lemma WindowMoves(at: Places, n: nat)
      requires Linked() && at.InStep(file, buffer, decrypter.CurStatus()) && n <= at.kept - at.Base()
      ensures n <= at.inBuffer && n <= at.filled <= |buffer|
        && |buffer[n..at.filled] + buffer[at.filled - n..]| == |buffer|
      ensures at.(inBuffer := at.inBuffer - n, filled := at.filled - n)
                .InStep(file, buffer[n..at.filled] + buffer[at.filled - n..], decrypter.CurStatus())
    {
      var a, moved := at.kept - at.Base(), buffer[n..at.filled] + buffer[at.filled - n..];
      assert moved[..at.filled - n] == buffer[n..at.filled];
      assert moved[a - n..at.filled - n] == moved[..at.filled - n][a - n..] == buffer[n..at.filled][a - n..]
        == buffer[a..at.filled];
    }

    lemma WindowStays(at: Places, more: Bytes)
      requires Linked() && at.InStep(file, buffer, decrypter.CurStatus())
      ensures at.InStep(file, buffer + more, decrypter.CurStatus())
    {
      var a := at.kept - at.Base();
      assert (buffer + more)[a..at.filled] == (buffer + more)[..|buffer|][a..at.filled] == buffer[a..at.filled];
    }

    /** Decrypts the next bytes behind the others. */
    method Fill(length: nat)
      requires Valid() && Recording() && |buffer| - decryptLength >= length && decryptPosition + length <= size
      requires decryptPosition + length == size || EndsBlock(decrypter.number + length)
      modifies this, decrypter
      ensures Valid() && Recording() && AtBlock() && position == old(position) && kept == old(kept)
      ensures decryptLength == old(decryptLength) + length && bufferPosition == old(bufferPosition)
    {
      hide Linked, Places.InStep, EndsBlock, Plain, After, Behind;
      Enough(length);
      var next := bytes[decryptPosition..decryptPosition + length];
      NextWindow(At(), length, next);
      if EndsBlock(decrypter.number + length) {
        NextNumber(length, next);
      }
      var part := decrypter.Decrypt(next);
      buffer := Behind(buffer, decryptLength, part);
      decryptPosition := decryptPosition + length;
      decryptLength := decryptLength + length;
    }

    /** What the decrypter yields next, and the window with it. */
    lemma NextWindow(at: Places, length: nat, next: Bytes)
      requires Valid() && at == At() && |buffer| - decryptLength >= length && decryptPosition + length <= size
      requires decryptPosition + length <= |bytes| && next == bytes[decryptPosition..decryptPosition + length]
      ensures file.key == decrypter.key && |Plain(file.key, decrypter.CurStatus(), next)| == length
      ensures at.(decrypted := at.decrypted + length, filled := at.filled + length)
                .InStep(file, Behind(buffer, decryptLength, Plain(file.key, decrypter.CurStatus(), next)),
                        After(file.key, decrypter.CurStatus(), next))
    {
      hide Plain, After, Behind;
      NextBytes(length);
      file.NextPart(decryptPosition, decryptPosition + length);
      WindowGrows(at, file, buffer, Plain(file.key, decrypter.CurStatus(), next));
    }

    lemma NextNumber(length: nat, next: Bytes)
      requires Valid() && decryptPosition + length <= |bytes|
      requires next == bytes[decryptPosition..decryptPosition + length] && EndsBlock(decrypter.number + length)
      ensures After(file.key, decrypter.CurStatus(), next).number == 0
    {
      NumberAfter(file.key, decrypter.CurStatus(), next);
    }

    lemma Enough(length: nat)
      requires Valid() && decryptPosition + length <= size
      ensures decryptPosition + length <= |bytes|
    {
    }

    /** Decrypts a part to the front of the buffer. */
    method DecryptToFront(length: nat)
      requires Linked() && decrypter.Valid() && length <= |buffer| && decryptPosition + length <= size
      requires decrypter.CurStatus() == file.StatusAt(decryptPosition)
      modifies this`buffer, this`decryptPosition, decrypter
      ensures decrypter.Valid() && decryptPosition == old(decryptPosition) + length && |buffer| == old(|buffer|)
      ensures decrypter.CurStatus() == file.StatusAt(decryptPosition)
      ensures buffer[..length] == file.Text()[decryptPosition - length..decryptPosition]
      ensures EndsBlock(old(decrypter.number) + length) ==> decrypter.number == 0
    {
      hide Plain, After, EndsBlock, File.StatusAt, File.Text, Inverse;
      var next := bytes[decryptPosition..decryptPosition + length];
      NextBytes(length);
      file.NextPart(decryptPosition, decryptPosition + length);
      if EndsBlock(decrypter.number + length) {
        PartEnds(length, next);
      }
      var part := decrypter.Decrypt(next);
      buffer := part + buffer[length..];
      assert buffer[..length] == part;
      decryptPosition := decryptPosition + length;
    }

    lemma NextBytes(length: nat)
      requires Linked() && decryptPosition + length <= size
      ensures decryptPosition + length <= |bytes|
      ensures bytes[decryptPosition..decryptPosition + length] == file.cipher[decryptPosition..decryptPosition + length]
    {
      SliceOfTake(bytes, size, decryptPosition, decryptPosition + length);
    }

    lemma LinkedParts()
      requires Linked()
      ensures file.Valid() && |file.cipher| == size <= |bytes| && decrypter.key == file.key
    {
    }

    lemma PartEnds(length: nat, next: Bytes)
      requires file.start.Valid() && |next| == length && decrypter.Valid() && EndsBlock(decrypter.number + length)
      ensures After(file.key, decrypter.CurStatus(), next).number == 0
    {
      NumberAfter(file.key, decrypter.CurStatus(), next);
    }

    /** Moves on; what is not in the window is decrypted block by block and dropped. */
    method SkipBytes(length: nat)
      requires Valid() && AtBlock() && length <= size - position
      modifies this, decrypter
      ensures Valid() && AtBlock() && position == old(position) + length
    {
      hide Linked, Places.InStep, EndsBlock, File.StatusAt, File.Text, Blocks;
      Bounds();
      position := position + length;
      var decryptedBytesLeft := decryptLength - bufferPosition;
      if decryptedBytesLeft >= length {
        InWindow(length);
        bufferPosition := bufferPosition + length;
        return;
      }
      var rest := length - decryptedBytesLeft;
      assert decrypter.number == 0;
      Skip(rest);
    }

    /** Decrypts until the position lies in the buffer; only the last block is kept. */
    method Skip(rest: nat)
      requires Linked() && decrypter.Valid() && |buffer| >= 2 * AES_IV_LEN && 0 < rest <= size - decryptPosition
      requires decrypter.number == 0 && decrypter.CurStatus() == file.StatusAt(decryptPosition)
        && position == decryptPosition + rest
      modifies this, decrypter
      ensures Valid() && AtBlock() && position == old(position)
    {
      hide Linked, Places.InStep, EndsBlock, File.StatusAt, File.Text, Blocks, Least, Inverse;
      LinkedParts();
      var alignSize := Blocks(rest);
      var left := Least(alignSize, size - decryptPosition);
      SkipSizes(rest, size - decryptPosition);
      var decryptedBytesLeft := left - rest;
      ghost var total, dp := left, decryptPosition;
      var round := left / 16;
      for index := 0 to round
        invariant left == total - 16 * index && decryptPosition == dp + 16 * index && position == old(position)
        invariant |buffer| >= 2 * AES_IV_LEN
        invariant decrypter.Valid() && decrypter.number == 0 && decrypter.CurStatus() == file.StatusAt(decryptPosition)
        invariant index > 0 ==> buffer[..16] == file.Text()[decryptPosition - 16..decryptPosition]
      {
        WholeBlockEnds();
        DecryptToFront(16);
        left := left - 16;
      }
      if left != 0 {
        DecryptToFront(left);
        bufferPosition := left - decryptedBytesLeft;
        decryptLength := left;
      } else {
        bufferPosition := 16 - decryptedBytesLeft;
        decryptLength := 16;
      }
      kept := position;
      NewWindow();
    }

    lemma WholeBlockEnds()
      ensures EndsBlock(0 + 16)
    {
    }

    /** A buffer that has been filled from the front. */
    lemma NewWindow()
      requires Linked() && decrypter.Valid() && |buffer| >= 2 * AES_IV_LEN
        && kept == position <= decryptPosition <= size
      requires bufferPosition <= decryptLength <= |buffer| && decryptLength <= decryptPosition
      requires position == decryptPosition - decryptLength + bufferPosition
      requires decrypter.CurStatus() == file.StatusAt(decryptPosition)
      requires buffer[..decryptLength] == file.Text()[decryptPosition - decryptLength..decryptPosition]
      ensures Valid()
    {
      hide File.StatusAt, File.Text;
      LaterWindow(buffer, 0, decryptLength, file.Text(), decryptPosition - decryptLength, decryptPosition,
                  bufferPosition);
    }

    /** What the window shows is what the plaintext says. */
    lemma WindowShows(n: nat)
      requires Valid() && bufferPosition + n <= decryptLength
      ensures position + n <= size && buffer[bufferPosition..bufferPosition + n] == file.Text()[position..position + n]
    {
      hide File.Text, File.StatusAt, Inverse;
      var base := decryptPosition - decryptLength;
      LaterWindow(buffer, kept - base, decryptLength, file.Text(), kept, decryptPosition, position - kept);
      TakeOfSlice(buffer, bufferPosition, decryptLength, n);
      TakeOfSlice(file.Text(), position, decryptPosition, n);
    }

    lemma WindowByte()
      requires Valid() && bufferPosition < decryptLength
      ensures position < size && buffer[bufferPosition] == file.Text()[position]
    {
      hide File.Text, File.StatusAt, Inverse;
      WindowShows(1);
      assert buffer[bufferPosition] == buffer[bufferPosition..bufferPosition + 1][0];
      assert file.Text()[position] == file.Text()[position..position + 1][0];
    }

    method ReadRawByte() returns (r: Result<uint8>)
      requires Valid() && (position < size ==> bufferPosition < decryptLength)
      modifies this`position, this`bufferPosition
      ensures Valid() && (r.Ok? <==> old(position) < size)
      ensures r.Ok? ==> position == old(position) + 1 && bufferPosition == old(bufferPosition) + 1
      ensures r.Ok? ==> r.value == file.Text()[old(position)]
      ensures r.Err? ==> position == old(position) && bufferPosition == old(bufferPosition)
    {
      hide Linked, Places.InStep, File.StatusAt, File.Text;
      Bounds();
      if position == size {
        return Err(ReachEnd);
      }
      WindowByte();
      position := position + 1;
      InWindow(1);
      r := Ok(buffer[bufferPosition]);
      bufferPosition := bufferPosition + 1;
    }

    /** Reads a 32-bit number; what an encoder wrote into the plaintext comes back, and exactly its bytes are
        consumed. */
    method ReadRawVarint32(discardPreData: bool) returns (r: Result<uint32>)
      requires Valid() && (discardPreData || Recording()) && (AtBlock() || bufferPosition == decryptLength)
      modifies this, decrypter
      ensures Valid() && Recording() && AtBlock() && old(position) <= position
      ensures kept == if discardPreData then old(position) else old(kept)
      ensures r.Ok? ==> Size(r.value) <= position - old(position)
      ensures forall n: uint32 :: Encode(n) <= old(Rest()) ==> r == Ok(n) && position == old(position) + |Encode(n)|
    {
      hide Linked, Places.InStep, File.StatusAt, File.Text, Encode;
      ghost var s, p := Rest(), position;
      ConsumeBytes(10, discardPreData);
      Bounds();
      ghost var b := bufferPosition;
      assert forall i :: 0 <= i < |s| ==> s[i] == file.Text()[p + i];
      CodedInputData.AllSpelled(s);
      r := ReadDigits(s);
    }

    /** The digits of a number that lie in the window. */
    method ReadDigits(ghost s: Bytes) returns (r: Result<uint32>)
      requires Valid() && Recording() && AtBlock() && decryptLength - bufferPosition >= Least(10, size - position)
        && s == Rest()
      modifies this`position, this`bufferPosition
      ensures Valid() && Recording() && AtBlock() && old(position) <= position
      ensures r.Ok? ==> Size(r.value) <= position - old(position)
      ensures forall n: uint32 :: CodedInputData.Spelled(s, n) ==> r == Ok(n) && position == old(position) + |Encode(n)|
    {
      hide Linked, Places.InStep, File.StatusAt, File.Text, Encode, Wrap32;
      Bounds();
      TextBehind(s);
      var b0 := ReadRawByte();
      if b0.Err? { return Err(b0.error); }
      if b0.value < 128 { return Ok(b0.value); }
      var b1 := ReadRawByte();
      if b1.Err? { return Err(b1.error); }
      if b1.value < 128 { return Ok(Low(b0.value) + b1.value * 0x80); }
      var b2 := ReadRawByte();
      if b2.Err? { return Err(b2.error); }
      if b2.value < 128 { return Ok(Low(b0.value) + Low(b1.value) * 0x80 + b2.value * 0x4000); }
      r := ReadUpperDigits(Low(b0.value) + Low(b1.value) * 0x80 + Low(b2.value) * 0x4000, s);
    }

    /** The fourth and the fifth digit. */
    method ReadUpperDigits(lower: nat, ghost s: Bytes) returns (r: Result<uint32>)
      requires Valid() && Recording() && AtBlock() && decryptLength - bufferPosition >= Least(7, size - position)
      requires 3 <= position && |s| >= 3 && s == file.Text()[position - 3..] && lower < 0x20_0000
      requires lower == Low(s[0]) + Low(s[1]) * 0x80 + Low(s[2]) * 0x4000
      modifies this`position, this`bufferPosition
      ensures Valid() && Recording() && AtBlock() && old(position) <= position
      ensures r.Ok? ==> Size(r.value) <= position - old(position) + 3
      ensures forall n: uint32 :: CodedInputData.Spelled(s, n) && |Encode(n)| > 3 ==>
                r == Ok(n) && position == old(position) - 3 + |Encode(n)|
    {
      hide Linked, Places.InStep, File.StatusAt, File.Text, Encode, Low, Wrap32;
      Bounds();
      TextFrom(s, position - 3);
      var b3 := ReadRawByte();
      if b3.Err? { return Err(b3.error); }
      if b3.value < 128 { return Ok(lower + b3.value * 0x20_0000); }
      var b4 := ReadRawByte();
      if b4.Err? { return Err(b4.error); }
      var result := lower + Low(b3.value) * 0x20_0000 + (b4.value % 16) * 0x1000_0000;
      if b4.value >= 128 {
        r := DiscardUpper(result);
        return;
      }
      return Ok(result);
    }

    lemma TextFrom(s: Bytes, p: nat)
      requires file.start.Valid() && p <= |file.cipher| && s == file.Text()[p..]
      ensures forall i :: 0 <= i < |s| ==> s[i] == file.Text()[p + i]
    {
    }

    /** Discards the upper 32 bits. */
    method DiscardUpper(result: uint32) returns (r: Result<uint32>)
      requires Valid() && Recording() && AtBlock() && decryptLength - bufferPosition >= Least(5, size - position)
      modifies this`position, this`bufferPosition
      ensures Valid() && Recording() && AtBlock() && old(position) <= position && (r.Ok? ==> r.value == result)
    {
      hide Linked, Places.InStep, File.StatusAt, File.Text;
      Bounds();
      for i := 0 to 5
        invariant Valid() && Recording() && AtBlock() && position == old(position) + i <= size
        invariant decryptLength - bufferPosition >= Least(5 - i, size - position)
      {
        var b := ReadRawByte();
        if b.Err? { return Err(b.error); }
        if b.value < 128 { return Ok(result); }
      }
      return Err(Malformed);
    }

    lemma TextBehind(s: Bytes)
      requires Valid() && s == Rest()
      ensures forall i :: 0 <= i < |s| ==> s[i] == file.Text()[position + i]
    {
    }

    /** Reads a string; an encoded key k comes back, and the window still holds the record from its beginning. */
    method ReadString(ghost k: Bytes) returns (r: Result<KeyPart>)
      requires Valid() && (AtBlock() || bufferPosition == decryptLength)
      modifies this, decrypter
      ensures Valid() && Recording() && AtBlock() && old(position) <= position && kept == old(position)
      ensures r.Ok? ==> r.value.offset == old(position) < position
      ensures r.Ok? ==> Size(r.value.keySize) + r.value.keySize <= position - old(position)
      ensures |k| < TWO_16 && Encode(|k|) + k <= old(Rest()) ==>
                r == Ok(KeyPart(k, |k|, old(position))) && position == old(position) + |Encode(|k|) + k|
    {
      hide Linked, Places.InStep, File.StatusAt, File.Text, Encode, Size;
      ghost var s, p := Rest(), position;
      if Encode(|k|) + k <= s {
        Prefix(Encode(|k|), k, s);
      }
      var offset := position;
      var length := ReadRawVarint32(true);
      if length.Err? {
        return Err(length.error);
      }
      if length.value >= TWO_31 {
        return Err(NegativeSize);
      }
      if length.value > size - position {
        return Err(Truncated);
      }
      ConsumeBytes(length.value, false);
      Bounds();
      RestShows(s, p, position - p, length.value);
      var key := Take(length.value);
      SizeMonotone(Wrap16(length.value), length.value);
      r := Ok(KeyPart(key, Wrap16(length.value), offset));
    }

    lemma RestShows(s: Bytes, p: nat, i: nat, n: nat)
      requires file.start.Valid() && p + i + n <= |file.cipher| && s == file.Text()[p..]
      ensures s[i..i + n] == file.Text()[p + i..p + i + n]
    {
    }

    /** What is left behind a later position. */
    lemma RestBehind(s: Bytes, p: nat)
      requires Valid() && p <= position && s == file.Text()[p..]
      ensures Rest() == s[position - p..]
    {
    }

    /** The next bytes of the window. */
    method Take(n: nat) returns (part: Bytes)
      requires Valid() && bufferPosition + n <= decryptLength
      modifies this`position, this`bufferPosition
      ensures Valid() && position == old(position) + n && bufferPosition == old(bufferPosition) + n
      ensures |part| == n && part == file.Text()[old(position)..position]
    {
      hide Linked, Places.InStep, File.StatusAt, File.Text;
      Bounds();
      WindowShows(n);
      part := buffer[bufferPosition..bufferPosition + n];
      position := position + n;
      InWindow(n);
      bufferPosition := bufferPosition + n;
    }

    /** The status in which the bytes up to the position were still to be decrypted, `rollbackSize` bytes back. */
    method StatusBefore(rollbackSize: nat) returns (status: Status)
      requires Valid() && rollbackSize <= position - kept
      ensures status == file.StatusAt(position - rollbackSize)
    {
      hide Linked, Places.InStep, File.StatusAt, File.Text, Plain, After, Inverse;
      Bounds();
      LinkedParts();
      var back := rollbackSize + (decryptLength - bufferPosition);
      WindowBack(back);
      status := decrypter.StatusBeforeDecrypt(bytes[decryptPosition - back..decryptPosition],
                                              buffer[decryptLength - back..decryptLength],
                                                file.StatusAt(decryptPosition - back));
    }

    lemma WindowBack(back: nat)
      requires Valid() && back <= decryptPosition - kept
      ensures back <= decryptPosition <= |bytes| && back <= decryptLength
      ensures var st, s := file.StatusAt(decryptPosition - back), bytes[decryptPosition - back..decryptPosition];
              && decrypter.CurStatus() == After(file.key, st, s)
              && buffer[decryptLength - back..decryptLength] == Plain(file.key, st, s)
    {
      hide Plain, After, Inverse;
      var i := decryptPosition - back;
      file.NextPart(i, decryptPosition);
      SliceOfTake(bytes, size, i, decryptPosition);
      LaterWindow(buffer, kept - (decryptPosition - decryptLength), decryptLength, file.Text(), kept, decryptPosition,
                  i - kept);
    }

    /** How a value that lies behind the header at position p is kept. */
    ghost function Stored(p: nat, offset: uint32, keySize: uint16, n: uint32): (h: HolderCrypt)
      requires file.start.Valid() && p + n <= |file.cipher| && Size(n) + Size(keySize) + keySize <= p
    {
      if n > MEDIUM_BUFFER_SIZE then
        Offset(Size(n) + Size(keySize), keySize, n, offset, file.StatusAt(p - (Size(n) + Size(keySize) + keySize)))
      else HolderFor(file.Text()[p..p + n])
    }

    /** Reads the size of a value, and the value itself if it is not left in the file. */
    method ReadData(offset: uint32, keySize: uint16, ghost n: uint32) returns (r: Result<HolderCrypt>)
      requires Valid() && Recording() && AtBlock() && kept == offset && Size(keySize) + keySize <= position - offset
      modifies this, decrypter
      ensures Valid() && AtBlock() && old(position) <= position
      ensures n < TWO_31 && Encode(n) <= old(Rest()) && Size(n) + n <= |old(Rest())| ==>
                position == old(position) + Size(n) + n && r == Ok(Stored(old(position) + Size(n), offset, keySize, n))
    {
      hide Linked, Places.InStep, File.StatusAt, File.Text, Encode, Size;
      SizeIsLength(n);
      var length := ReadRawVarint32(false);
      if length.Err? {
        return Err(length.error);
      }
      if length.value >= TWO_31 {
        return Err(NegativeSize);
      }
      if length.value > size - position {
        return Err(Truncated);
      }
      Bounds();
      if length.value > MEDIUM_BUFFER_SIZE {
        var pbKeyValueSize: uint8 := Size(length.value) + Size(keySize);
        var rollbackSize := pbKeyValueSize + keySize;
        var status := StatusBefore(rollbackSize);
        SkipBytes(length.value);
        r := Ok(Offset(pbKeyValueSize, keySize, length.value, offset, status));
      } else {
        ConsumeBytes(length.value, false);
        var value := Take(length.value);
        r := Ok(HolderFor(value));
      }
    }

    /** Stepping inside the window. */
    lemma InWindow(length: nat)
      requires Linked() && bufferPosition + length <= decryptLength && position >= length
      requires Places(position - length, decryptPosition, bufferPosition, decryptLength, kept).InStep(file, buffer,
          decrypter.CurStatus())
      ensures Places(position, decryptPosition, bufferPosition + length, decryptLength, kept).InStep(file, buffer,
          decrypter.CurStatus())
    {
    }
  }

  // ---- Replaying an encrypted file ----

  /** How a value of a record at the offset is kept. */
  ghost function HolderOfRecord(file: File, r: Record, offset: uint32): HolderCrypt
    requires Fits(r) && file.start.Valid() && offset <= |file.cipher|
  {
    if |r.value| > MEDIUM_BUFFER_SIZE then
      Offset(Size(|r.value|) + Size(|r.key|), |r.key|, |r.value|, offset, file.StatusAt(offset))
    else HolderFor(r.value)
  }

  ghost function CryptStep(file: File, m: map<Bytes, HolderCrypt>, r: Record, offset: uint32): (m': map<Bytes,
      HolderCrypt>)
    requires Fits(r) && file.start.Valid() && offset <= |file.cipher|
  {
    if r.value == [] then m - {r.key} else m[r.key := HolderOfRecord(file, r, offset)]
  }

  /** What replaying the log leaves in the index of an encrypted store. */
  ghost function CryptIndex(file: File, log: seq<Record>): (m: map<Bytes, HolderCrypt>)
    requires Small(log) && file.start.Valid() && End(log) <= |file.cipher|
  {
    if log == [] then map[]
    else
      var before := log[..|log| - 1];
      CryptStep(file, CryptIndex(file, before), log[|log| - 1], End(before))
  }

  /** One round of the replay. */
  method ReadRecordCrypt(input: CodedInputDataCrypt, dic: map<Bytes, HolderCrypt>, ghost rec: Record)
    returns (r: Result<map<Bytes, HolderCrypt>>)
    requires input.Valid() && (input.AtBlock() || input.bufferPosition == input.decryptLength) && input.size < TWO_32
    modifies input, input.decrypter
    ensures input.Valid() && input.AtBlock() && (r.Ok? ==> old(input.position) < input.position)
    ensures Fits(rec) && EncodeRecord(rec) <= old(input.Rest()) ==>
              && r == Ok(CryptStep(input.file, dic, rec, old(input.position)))
              && input.position == old(input.position) + |EncodeRecord(rec)|
  {
    hide Encode, EncodeRecord, Size, File.Text, File.StatusAt, Places.InStep, CodedInputDataCrypt.Linked, CryptStep,
         HolderFor;
    ghost var s, p := input.Rest(), input.position;
    input.Bounds();
    if Fits(rec) && EncodeRecord(rec) <= s {
      RecordFront(rec, s);
      SizeIsLength(|rec.value|);
      SizeIsLength(|rec.key|);
    }
    var k := input.ReadString(rec.key);
    if k.Err? {
      return Err(k.error);
    }
    input.RestBehind(s, p);
    if |k.value.key| == 0 {
      return Ok(dic);
    }
    var d := input.ReadData(k.value.offset, k.value.keySize, if Fits(rec) then |rec.value| else 0);
    if d.Err? {
      return Err(d.error);
    }
    if Fits(rec) && EncodeRecord(rec) <= s {
      StoredIsHolder(input, rec, p, dic, s);
    }
    if RealValueSize(d.value) > 0 {
      r := Ok(dic[k.value.key := d.value]);
    } else {
      r := Ok(dic - {k.value.key});
    }
  }

  /** What the reader keeps of a record is what the index has for it. */
  lemma StoredIsHolder(input: CodedInputDataCrypt, rec: Record, p: uint32, dic: map<Bytes, HolderCrypt>, s: Bytes)
    requires Fits(rec) && input.file.start.Valid() && p <= |input.file.cipher| && s == input.file.Text()[p..]
      && EncodeRecord(rec) <= s
    ensures var q, n := p + Size(|rec.key|) + |rec.key| + Size(|rec.value|), |rec.value|;
            && q + n <= |input.file.cipher| && Size(n) + Size(|rec.key|) + |rec.key| <= q
            && var h := input.Stored(q, p, |rec.key|, n);
               && (RealValueSize(h) > 0 <==> rec.value != [])
               && CryptStep(input.file, dic, rec, p) == if rec.value == [] then dic - {rec.key} else dic[rec.key := h]
  {
    RecordSize(rec);
    ValueInText(input.file, rec, p, s);
    hide Size, File.Text, File.StatusAt;
  }

  lemma ValueInText(file: File, rec: Record, p: nat, s: Bytes)
    requires Fits(rec) && file.start.Valid() && p <= |file.cipher| && s == file.Text()[p..] && EncodeRecord(rec) <= s
    ensures var q := p + Size(|rec.key|) + |rec.key| + Size(|rec.value|);
            q + |rec.value| <= |file.cipher| && file.Text()[q..q + |rec.value|] == rec.value
  {
    RecordSize(rec);
    hide Size, File.Text, Encode;
    var e := EncodeRecord(rec);
    assert e == Header(rec) + rec.value;
    assert s[..|e|][|Header(rec)|..] == rec.value;
    var q := p + |Header(rec)|;
    assert file.Text()[q..q + |rec.value|] == s[|Header(rec)|..|e|];
  }

  /** The replay of an encrypted file starts like the one of a plain file. */
  ghost predicate ResumesCrypt(file: File, log: seq<Record>, m: nat, position: nat, dictionary: map<Bytes, HolderCrypt>,
                               greedy: bool)
    requires m <= |log| && file.start.Valid()
  {
    && Small(log[..m]) && End(log[..m]) <= |file.cipher|
    && if position == 0 then m == 0 && (greedy ==> dictionary == map[])
       else greedy && position == End(log[..m]) && dictionary == CryptIndex(file, log[..m])
  }

  lemma {:induction false} CryptIndexNext(file: File, log: seq<Record>, i: nat)
    requires file.start.Valid() && Complete(file.Text(), |file.cipher|, log) && i <= |log|
    ensures Small(log[..i]) && End(log[..i]) <= |file.cipher|
    ensures i == 0 ==> CryptIndex(file, log[..i]) == map[]
    ensures i < |log| ==>
              && Small(log[..i + 1]) && Fits(log[i]) && End(log[..i + 1]) <= |file.cipher|
              && CryptIndex(file, log[..i + 1]) == CryptStep(file, CryptIndex(file, log[..i]), log[i], End(log[..i]))
  {
    hide Complete, EncodeLog, EncodeRecord, Small, Spells, CryptStep, File.Text, Index, Fits;
    NextInFile(file.Text(), |file.cipher|, log, i);
    if i < |log| {
      NextInFile(file.Text(), |file.cipher|, log, i + 1);
      assert log[..i + 1][..i] == log[..i];
    }
  }

  /** Replays an encrypted file into an index, from the beginning or from where m records had been replayed. */
  method DecodeOneMapCrypt(data: Bytes, size: nat, crypter: AesCrypt, position: nat, dictionary: map<Bytes,
                           HolderCrypt>, greedy: bool,
                           ghost file: File, ghost log: seq<Record>, ghost m: nat)
                             returns (newDic: map<Bytes, HolderCrypt>)
    requires size <= |data| && size < TWO_32 && data[..size] == file.cipher && position <= size && m <= |log|
    requires file.Valid() && crypter.Valid() && crypter.key == file.key
      && crypter.CurStatus() == file.StatusAt(position)
    modifies crypter
    ensures Complete(file.Text(), size, log) && ResumesCrypt(file, log, m, position, dictionary, greedy) ==>
              newDic == CryptIndex(file, log) && crypter.Valid() && crypter.CurStatus() == file.StatusAt(size)
  {
    hide Complete, CryptIndex, CryptStep, EncodeRecord, EncodeLog, Small, Places.InStep, File.Text, File.StatusAt,
         CodedInputDataCrypt.Linked, Encode;
    ghost var fine := Complete(file.Text(), size, log) && ResumesCrypt(file, log, m, position, dictionary, greedy);
    var input := MakeReader(data, size, crypter, position, file);
    newDic := if greedy then dictionary else map[];
    var started := StartAtCrypt(input, position, log, m, fine);
    if !started {
      if !greedy { newDic := dictionary; }
      return;
    }
    ghost var i: nat := m;
    if fine {
      CryptIndexNext(file, log, m);
    }
    input.Bounds();
    while input.position < size
      invariant input.Valid() && input.size == size && input.file == file && input.decrypter == crypter && fresh(input)
      invariant input.position <= size && (input.AtBlock() || input.bufferPosition == input.decryptLength)
      invariant fine ==> i <= |log| && Small(log[..i]) && input.position == End(log[..i])
      invariant fine ==> newDic == CryptIndex(file, log[..i])
      decreases size - input.position
    {
      ghost var rec := Record([], []);
      if fine {
        NextInFile(file.Text(), size, log, i);
        CryptIndexNext(file, log, i);
        rec := log[i];
      }
      var r := ReadRecordCrypt(input, newDic, rec);
      input.Bounds();
      if r.Err? {
        if !greedy { newDic := dictionary; }
        return;
      }
      newDic := r.value;
      i := i + 1;
    }
    input.Bounds();
    if fine {
      NextInFile(file.Text(), size, log, i);
      assert log[..i] == log;
    }
  }

  /** A reader whose decrypter stands at a position. */
  method MakeReader(data: Bytes, size: nat, crypter: AesCrypt, position: nat, ghost file: File)
    returns (input: CodedInputDataCrypt)
    requires size <= |data| && data[..size] == file.cipher && position <= size
    requires file.Valid() && crypter.Valid() && crypter.key == file.key
      && crypter.CurStatus() == file.StatusAt(position)
    ensures fresh(input) && input.size == size && input.file == file && input.decrypter == crypter
      && input.StandsAt(position)
  {
    input := new CodedInputDataCrypt(data, size, crypter, file);
  }

  method StartAtCrypt(input: CodedInputDataCrypt, position: nat, ghost log: seq<Record>, ghost m: nat, ghost fine: bool)
    returns (ok: bool)
    requires input.StandsAt(position) && m <= |log| && input.file.start.Valid()
    requires fine ==> Complete(input.file.Text(), input.size, log) && if position == 0 then m == 0
      else position == End(log[..m])
    modifies input, input.decrypter
    ensures input.Valid() && (input.AtBlock() || input.bufferPosition == input.decryptLength)
    ensures fine ==> ok && input.position == End(log[..m])
  {
    hide Complete, EncodeLog, Small, Places.InStep, File.Text, File.StatusAt, CodedInputDataCrypt.Linked, Encode;
    if position != 0 {
      var r := input.Seek(position);
      ok := r.Ok?;
    } else {
      input.StandsAtStart();
      if fine {
        HolderInFront(input.file.Text(), input.size, log);
        assert log[..0] == [];
        WholeText(input);
      }
      var r := input.ReadRawVarint32(false);
      ok := r.Ok?;
    }
  }

  lemma WholeText(input: CodedInputDataCrypt)
    requires input.Valid() && input.position == 0
    ensures input.file.Text()[..input.size] == input.Rest() && End([]) == HOLDER_SIZE
  {
  }

  // ---- Reading a value through the index of an encrypted store ----

  /** The entry yields the value, and if it is an offset, its status is the one at the beginning of the record. */
  ghost predicate Serves(file: File, h: HolderCrypt, v: Bytes)
    requires file.start.Valid()
  {
    match h
    case Direct(value) => value == v
    case Memory(value) => value == v
    case Offset(pb, keySize, n, offset, st) =>
      && offset + pb + keySize + n <= |file.cipher| && n == |v| && st == file.StatusAt(offset)
      && file.Text()[offset + pb + keySize..offset + pb + keySize + n] == v
  }

  lemma {:induction false} CryptKeys(file: File, log: seq<Record>)
    requires Small(log) && file.start.Valid() && End(log) <= |file.cipher|
    ensures CryptIndex(file, log).Keys == Contents(log).Keys
  {
    if log != [] {
      CryptKeys(file, log[..|log| - 1]);
    }
  }

  /** Every entry of the index serves the last value written for its key. */
  lemma {:induction false} IndexServes(file: File, log: seq<Record>, k: Bytes)
    requires file.Valid() && Small(log) && End(log) <= |file.cipher| && Spells(file.Text(), log)
    requires k in CryptIndex(file, log)
    ensures k in Contents(log) && Serves(file, CryptIndex(file, log)[k], Contents(log)[k])
  {
    CryptKeys(file, log);
    hide Spells, EncodeRecord, EncodeLog, File.Text, File.StatusAt, Serves, HolderOfRecord;
    var before, r := log[..|log| - 1], log[|log| - 1];
    SpellsPrefix(file.Text(), log);
    if r.key == k {
      RecordServes(file, r, End(before));
    } else {
      IndexServes(file, before, k);
    }
  }

  lemma RecordServes(file: File, r: Record, offset: uint32)
    requires file.Valid() && Fits(r) && offset + |EncodeRecord(r)| <= |file.cipher|
    requires file.Text()[offset..offset + |EncodeRecord(r)|] == EncodeRecord(r)
    ensures Serves(file, HolderOfRecord(file, r, offset), r.value)
  {
    hide EncodeRecord, File.Text, File.StatusAt, Size;
    var s := file.Text()[offset..];
    assert s[..|EncodeRecord(r)|] == EncodeRecord(r);
    ValueInText(file, r, offset, s);
  }

  /** An encrypted file serves the same keys and values as the plain reader's index of its plaintext. */
  lemma SameAsPlain(file: File, log: seq<Record>, k: Bytes)
    requires file.Valid() && Complete(file.Text(), |file.cipher|, log)
    ensures CryptIndex(file, log).Keys == Index(log).Keys
    ensures k in Index(log) ==>
              var h, start := Index(log)[k], Index(log)[k].offset + Index(log)[k].computedKVSize;
              start + h.valueSize <= |file.cipher|
                && Serves(file, CryptIndex(file, log)[k], file.Text()[start..start + h.valueSize])
  {
    hide Spells, EncodeRecord, EncodeLog, File.Text, File.StatusAt, Serves, CryptIndex;
    CryptKeys(file, log);
    if k in Index(log) {
      IndexServes(file, log, k);
      IndexLies(file.Text(), log, k);
      ValueLies(file.Text(), Index(log)[k], Record(k, Contents(log)[k]));
    }
  }

  /** The value behind the header of a record. */
  lemma ValueLies(bytes: Bytes, h: Holder, r: Record)
    requires Lies(bytes, h, r)
    ensures h.offset + h.computedKVSize + h.valueSize <= |bytes|
    ensures bytes[h.offset + h.computedKVSize..h.offset + h.computedKVSize + h.valueSize] == r.value
  {
    RecordSize(r);
    var e := EncodeRecord(r);
    assert e[|Header(r)|..] == r.value;
    hide EncodeRecord, Header;
    DropOfSlice(bytes, h.offset, h.offset + |e|, |Header(r)|);
  }

  /** Decrypts a record and drops the bytes before a position. */
  method DecryptBuffer(crypter: AesCrypt, input: Bytes, position: nat) returns (output: Bytes)
    requires crypter.Valid() && position <= |input|
    modifies crypter
    ensures output == Plain(crypter.key, old(crypter.CurStatus()), input)[position..]
  {
    hide Plain, After;
    ghost var key, st := crypter.key, crypter.CurStatus();
    var ptr := 0;
    WholeAndNothing(input);
    NothingDecrypted(key, st);
    var index := AES_IV_LEN;
    while index < position
      invariant index == ptr + AES_IV_LEN && ptr <= position && crypter.Valid()
        && crypter.CurStatus() == After(key, st, input[..ptr])
    {
      PlainSlice(key, st, input, ptr, ptr + AES_IV_LEN);
      var dropped := crypter.Decrypt(input[ptr..ptr + AES_IV_LEN]);
      ptr := ptr + AES_IV_LEN;
      index := index + AES_IV_LEN;
    }
    if ptr < position {
      PlainSlice(key, st, input, ptr, position);
      var dropped := crypter.Decrypt(input[ptr..position]);
      ptr := position;
    }
    PlainSlice(key, st, input, position, |input|);
    output := crypter.Decrypt(input[position..]);
    TailIsSlice(input, position);
    TailIsSlice(Plain(key, st, input), position);
  }

  lemma TailIsSlice(s: Bytes, i: nat)
    requires i <= |s|
    ensures s[i..] == s[i..|s|]
  {
  }

  /** The value of an entry. */
  method ToMMBuffer(h: HolderCrypt, data: Bytes, crypter: AesCrypt, ghost file: File, ghost v: Bytes)
    returns (value: Bytes)
    requires file.Valid() && crypter.key == file.key && file.cipher <= data && Serves(file, h, v)
    ensures value == v
  {
    hide Plain, After, Inverse;
    match h
    case Direct(stored) => value := stored;
    case Memory(stored) => value := stored;
    case Offset(pb, keySize, n, offset, st) =>
      var position := pb + keySize;
      var realSize := position + n;
      RecordAlone(file, data, offset, realSize, position);
      var decrypter := new AesCrypt(crypter.key, st);
      value := DecryptBuffer(decrypter, data[offset..offset + realSize], position);
  }

  lemma RecordAlone(file: File, data: Bytes, offset: nat, n: nat, position: nat)
    requires file.Valid() && file.cipher <= data && offset + n <= |file.cipher| && position <= n
    ensures Plain(file.key, file.StatusAt(offset), data[offset..offset + n])[position..]
      == file.Text()[offset + position..offset + n]
  {
    hide Plain, After, Inverse;
    file.NextPart(offset, offset + n);
    assert data[offset..offset + n] == file.cipher[offset..offset + n];
    DropOfSlice(file.Text(), offset, offset + n, position);
  }

  /** A part of a window at its end. */
  lemma LaterWindow(s: Bytes, a: nat, b: nat, t: Bytes, c: nat, d: nat, n: nat)
    requires a + n <= b <= |s| && c + n <= d <= |t| && s[a..b] == t[c..d]
    ensures s[a + n..b] == t[c + n..d]
  {
    DropOfSlice(s, a, b, n);
    DropOfSlice(t, c, d, n);
  }

  /** Either all blocks that are needed are there, or the last one is cut off by the end of the file. */
  lemma SkipSizes(rest: nat, left: nat)
    requires 0 < rest <= left
    ensures var total := Least(Blocks(rest), left);
            && rest <= total <= left && total - rest < 16 && total == total / 16 * 16 + total % 16
            && (if total % 16 != 0 then total == left && total - rest < total % 16 else total >= 16)
  {
  }
}
