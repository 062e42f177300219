/** Cipher feedback with 128-bit segments (section 6.3 of NIST SP 800-38A) over any block cipher, byte by byte
    and in the form in which it is computed, and how a decrypter is taken back. */
module Cfb {
  import opened Machine

  const BLOCK: nat := 16

  type Block = s: seq<uint8> | |s| == BLOCK witness seq(BLOCK, i => 0)

  /** The two directions of the block cipher under one key. */
  datatype BlockCipher = BlockCipher(encrypt: Block -> Block, decrypt: Block -> Block)

  ghost predicate Inverse(key: BlockCipher)
  {
    forall b: Block :: key.decrypt(key.encrypt(b)) == b
  }

  // ---- Exclusive or ----

  function XorBits(a: nat, b: nat, n: nat): nat
  {
    if n == 0 then 0 else (a % 2 + b % 2) % 2 + 2 * XorBits(a / 2, b / 2, n - 1)
  }

  lemma {:induction false} XorTwice(a: nat, b: nat, n: nat, top: nat)
    requires top == Power2(n) && a < top && b < top
    ensures XorBits(a, b, n) < top && XorBits(b, XorBits(a, b, n), n) == a
  {
    if n > 0 {
      hide XorBits;
      XorTwice(a / 2, b / 2, n - 1, Power2(n - 1));
      XorUnfolds(a, b, n, XorBits(a / 2, b / 2, n - 1));
    }
  }

  lemma LowestBit(p: nat, q: nat, r: nat)
    requires p < 2 && q < 2
    ensures var x := (p + q) % 2 + 2 * r; x / 2 == r && (q + x % 2) % 2 == p && x <= 2 * r + 1
  {
  }

  lemma XorUnfolds(a: nat, b: nat, n: nat, r: nat)
    requires n > 0 && XorBits(a / 2, b / 2, n - 1) == r && XorBits(b / 2, r, n - 1) == a / 2
    ensures XorBits(a, b, n) <= 2 * r + 1 && XorBits(b, XorBits(a, b, n), n) == a
  {
    LowestBit(a % 2, b % 2, r);
  }

  function Power2(n: nat): nat
  {
    if n == 0 then 1 else 2 * Power2(n - 1)
  }

  function Xor(a: uint8, b: uint8): (r: uint8)
  {
    XorInByte(a, b);
    XorBits(a, b, 8)
  }

  lemma XorInByte(a: uint8, b: uint8)
    ensures XorBits(a, b, 8) < 256 && XorBits(b, XorBits(a, b, 8), 8) == a
  {
    assert Power2(8) == 256;
    XorTwice(a, b, 8, 256);
  }

  lemma XorUndone(a: uint8, b: uint8)
    ensures Xor(b, Xor(a, b)) == a
  {
    XorInByte(a, b);
  }

  // ---- The mode, byte by byte ----

  /** How many bytes of the current block have been used, and the block: in front the ciphertext, then key stream. */
  datatype Status = Status(number: nat, vector: Block)
  {
    ghost predicate Valid() { number < BLOCK }
  }

  /** The block cipher runs only when the first byte of a block is wanted. */
  function KeyStream(key: BlockCipher, st: Status): Block
  {
    if st.number == 0 then key.encrypt(st.vector) else st.vector
  }

  function Next(key: BlockCipher, st: Status, c: uint8): (st': Status)
    requires st.Valid()
    ensures st'.Valid()
  {
    Status(if st.number + 1 == BLOCK then 0 else st.number + 1, KeyStream(key, st)[st.number := c])
  }

  function PlainByte(key: BlockCipher, st: Status, c: uint8): uint8
    requires st.Valid()
  {
    Xor(KeyStream(key, st)[st.number], c)
  }

  function After(key: BlockCipher, st: Status, s: Bytes): (st': Status)
    requires st.Valid()
    ensures st'.Valid()
  {
    if s == [] then st else Next(key, After(key, st, s[..|s| - 1]), s[|s| - 1])
  }

  function Plain(key: BlockCipher, st: Status, s: Bytes): (p: Bytes)
    requires st.Valid()
    ensures |p| == |s|
  {
    if s == [] then []
    else Plain(key, st, s[..|s| - 1]) + [PlainByte(key, After(key, st, s[..|s| - 1]), s[|s| - 1])]
  }

  lemma {:induction false} Concat(key: BlockCipher, st: Status, s: Bytes, t: Bytes)
    requires st.Valid()
    ensures After(key, st, s + t) == After(key, After(key, st, s), t)
    ensures Plain(key, st, s + t) == Plain(key, st, s) + Plain(key, After(key, st, s), t)
  {
    hide Next, PlainByte;
    if t == [] {
      assert s + t == s;
    } else {
      var n := |t| - 1;
      Concat(key, st, s, t[..n]);
      assert (s + t)[..|s + t| - 1] == s + t[..n];
    }
  }

  lemma {:induction false} Snoc(key: BlockCipher, st: Status, s: Bytes, i: nat)
    requires st.Valid() && i < |s|
    ensures After(key, st, s[..i + 1]) == Next(key, After(key, st, s[..i]), s[i])
    ensures Plain(key, st, s[..i + 1]) == Plain(key, st, s[..i]) + [PlainByte(key, After(key, st, s[..i]), s[i])]
  {
    assert s[..i + 1][..i] == s[..i];
  }

  lemma {:induction false} NumberAfter(key: BlockCipher, st: Status, s: Bytes)
    requires st.Valid()
    ensures After(key, st, s).number == (st.number + |s|) % 16
  {
    if s != [] {
      NumberAfter(key, st, s[..|s| - 1]);
      hide Plain, KeyStream;
    }
  }

  /** Inside a block the block itself goes on as the key stream. */
  lemma StepInBlock(key: BlockCipher, st: Status, c: uint8)
    requires st.Valid()
    ensures var st', k := Next(key, st, c), KeyStream(key, st);
            && st'.vector == k[st.number := c] && st'.number == (if st.number + 1 == BLOCK then 0 else st.number + 1)
            && PlainByte(key, st, c) == Xor(k[st.number], c) && (st'.number != 0 ==> KeyStream(key, st') == st'.vector)
  {
  }

  /** A byte of ciphertext and its plaintext give the key stream back. */
  lemma KeyByte(key: BlockCipher, st: Status, c: uint8)
    requires st.Valid()
    ensures Xor(c, PlainByte(key, st, c)) == KeyStream(key, st)[st.number]
  {
    XorUndone(KeyStream(key, st)[st.number], c);
  }

  /** Within a block the key stream ahead does not change. */
  lemma {:induction false} BlockStream(key: BlockCipher, st: Status, s: Bytes, i: nat)
    requires st.Valid() && st.number == 0 && i <= |s| && i < BLOCK
    ensures var t := After(key, st, s[..i]);
            t.number == i && KeyStream(key, t)[..i] == s[..i] && KeyStream(key, t)[i..] == key.encrypt(st.vector)[i..]
  {
    hide Plain;
    if i == 0 {
      assert s[..0] == [];
    } else {
      BlockStream(key, st, s, i - 1);
      Snoc(key, st, s, i - 1);
      var t, t' := After(key, st, s[..i - 1]), After(key, st, s[..i]);
      hide After, Plain;
      assert KeyStream(key, t') == KeyStream(key, t)[i - 1 := s[i - 1]];
      assert KeyStream(key, t)[i..] == KeyStream(key, t)[i - 1..][1..];
      assert KeyStream(key, t')[..i] == KeyStream(key, t)[..i - 1] + [s[i - 1]];
    }
  }

  class AesCrypt {
    const key: BlockCipher
    var number: nat
    var vector: Block

    constructor (key: BlockCipher, status: Status)
      requires status.Valid()
      ensures this.key == key && CurStatus() == status
    {
      this.key, number, vector := key, status.number, status.vector;
    }

    ghost predicate Valid()
      reads this
    {
      number < BLOCK
    }

    function CurStatus(): (st: Status)
      reads this
    {
      Status(number, vector)
    }

    /** Decrypts what follows in the stream. */
    method Decrypt(input: Bytes) returns (output: Bytes)
      requires Valid()
      modifies this
      ensures Valid() && CurStatus() == After(key, old(CurStatus()), input)
        && output == Plain(key, old(CurStatus()), input)
    {
      ghost var st := CurStatus();
      WholeAndNothing(input);
      NothingDecrypted(key, st);
      hide *;
      var n: nat, ivec: Block, i: nat, out: Bytes := DecryptHead(input);
      while |input| - i >= BLOCK
        invariant n < BLOCK && i <= |input| && (i < |input| ==> n == 0)
        invariant Status(n, ivec) == After(key, st, input[..i]) && out == Plain(key, st, input[..i])
        decreases |input| - i
      {
        ivec := key.encrypt(ivec);
        n, ivec, i, out := DecryptInBlock(input, ivec, i, i + BLOCK, out, st);
        n := 0;
      }
      if i < |input| {
        ivec := key.encrypt(ivec);
        n, ivec, i, out := DecryptInBlock(input, ivec, i, |input|, out, st);
      }
      number, vector := n, ivec;
      output := out;
    }

    /** Uses up the block that has been begun. */
    method DecryptHead(input: Bytes) returns (n: nat, ivec: Block, i: nat, output: Bytes)
      requires Valid()
      ensures n < BLOCK && i <= |input| && (i < |input| ==> n == 0)
      ensures Status(n, ivec) == After(key, CurStatus(), input[..i]) && output == Plain(key, CurStatus(), input[..i])
    {
      ghost var st := CurStatus();
      n, ivec, i, output := number, vector, 0, [];
      WholeAndNothing(input);
      NothingDecrypted(key, st);
      hide After, Plain;
      while n != 0 && i < |input|
        invariant n < BLOCK && i <= |input|
        invariant Status(n, ivec) == After(key, st, input[..i]) && output == Plain(key, st, input[..i])
        decreases |input| - i
      {
        Snoc(key, st, input, i);
        output := output + [Xor(ivec[n], input[i])];
        ivec := ivec[n := input[i]];
        n := if n + 1 == BLOCK then 0 else n + 1;
        i := i + 1;
      }
    }

    /** The bytes from position i0 to `end`, all in the block whose key stream is in ivec0. */
    method DecryptInBlock(input: Bytes, ivec0: Block, i0: nat, end: nat, output0: Bytes, ghost st: Status)
      returns (n: nat, ivec: Block, i: nat, output: Bytes)
      requires st.Valid() && i0 < end <= |input| && end - i0 <= BLOCK
      requires After(key, st, input[..i0]).number == 0 && ivec0 == KeyStream(key, After(key, st, input[..i0]))
      requires output0 == Plain(key, st, input[..i0])
      ensures i == end && n == end - i0 && output == Plain(key, st, input[..i])
      ensures Status(if n == BLOCK then 0 else n, ivec) == After(key, st, input[..i])
    {
      n, ivec, i, output := 0, ivec0, i0, output0;
      ghost var cur := After(key, st, input[..i]);
      hide *;
      while i < end
        invariant i0 <= i <= end && n == i - i0 && output == Plain(key, st, input[..i])
        invariant cur == After(key, st, input[..i]) && cur.number == if n == BLOCK then 0 else n
        invariant n < BLOCK ==> ivec == KeyStream(key, cur)
        invariant i > i0 ==> ivec == cur.vector
      {
        Snoc(key, st, input, i);
        StepInBlock(key, cur, input[i]);
        cur := Next(key, cur, input[i]);
        output := output + [Xor(ivec[n], input[i])];
        ivec := ivec[n := input[i]];
        n := n + 1;
        i := i + 1;
      }
    }

    /** The status that the decrypter had before it turned the input into the output. */
    method StatusBeforeDecrypt(input: Bytes, output: Bytes, ghost st: Status) returns (status: Status)
      requires Valid() && Inverse(key) && st.Valid()
      requires CurStatus() == After(key, st, input) && output == Plain(key, st, input)
      ensures status == st
    {
      WholeAndNothing(input);
      NothingDecrypted(key, st);
      assert |output| == |input|;
      hide *;
      var n: nat, ivec: Block, len: nat := UndoHead(input, output, st);
      while len >= BLOCK
        invariant n < BLOCK && len <= |input| && Status(n, ivec) == After(key, st, input[..len])
          && (n != 0 ==> len == 0)
        decreases len
      {
        len := len - BLOCK;
        ivec := UndoBlock(input, output, len, ivec, st);
      }
      if len > 0 {
        n, ivec := UndoTail(input, output, len, ivec, st);
      }
      status := Status(n, ivec);
    }

    /** Back to the start of the block that has been begun. */
    method UndoHead(input: Bytes, output: Bytes, ghost st: Status) returns (n: nat, ivec: Block, len: nat)
      requires Valid() && Inverse(key) && st.Valid() && |output| == |input| && output == Plain(key, st, input)
      requires CurStatus() == After(key, st, input[..|input|])
      ensures n < BLOCK && len <= |input| && Status(n, ivec) == After(key, st, input[..len]) && (n != 0 ==> len == 0)
    {
      n, ivec, len := number, vector, |input|;
      ghost var full := After(key, st, input[..len]);
      assert full.number == number && full.vector == vector;
      hide *;
      while n != 0 && len > 0
        invariant n < BLOCK && len <= |input| && n == After(key, st, input[..len]).number
        invariant if n == 0 && len < |input| then key.decrypt(ivec) == After(key, st, input[..len]).vector
                  else ivec == After(key, st, input[..len]).vector
        invariant if number == 0 then n == 0 && len == |input| else n == 0 ==> len < |input|
        decreases len
      {
        n := n - 1;
        len := len - 1;
        UndoByte(key, st, input, len, output, ivec);
        StreamIsVector(key, After(key, st, input[..len]));
        ivec := ivec[n := Xor(input[len], output[len])];
      }
      if n == 0 && number != 0 {
        ivec := key.decrypt(ivec);
      }
    }

    /** Back over a whole block. */
    method UndoBlock(input: Bytes, output: Bytes, len: nat, ivec0: Block, ghost st: Status) returns (ivec: Block)
      requires Inverse(key) && st.Valid() && len + BLOCK <= |input| == |output| && output == Plain(key, st, input)
      requires Status(0, ivec0) == After(key, st, input[..len + BLOCK])
      ensures Status(0, ivec) == After(key, st, input[..len])
    {
      BlockStart(key, st, input, len);
      ghost var t := After(key, st, input[..len]);
      StreamIsVector(key, t);
      ghost var e := key.encrypt(t.vector);
      assert key.decrypt(e) == t.vector;
      ivec := ivec0;
      var n := 0;
      hide *;
      while n < BLOCK
        invariant 0 <= n <= BLOCK && ivec[..n] == e[..n]
      {
        UndoInBlock(key, st, input, len, n, output);
        ivec := ivec[n := Xor(input[len + n], output[len + n])];
        n := n + 1;
      }
      assert ivec == e;
      ivec := key.decrypt(ivec);
    }

    /** Back over part of a block. */
    method UndoTail(input: Bytes, output: Bytes, length: nat, ivec0: Block, ghost st: Status)
      returns (n: nat, ivec: Block)
      requires Inverse(key) && st.Valid() && 0 < length < BLOCK && length <= |input| == |output|
      requires output == Plain(key, st, input) && Status(0, ivec0) == After(key, st, input[..length])
      ensures n < BLOCK && Status(n, ivec) == After(key, st, input[..0])
    {
      n, ivec := BLOCK, ivec0;
      var len := length;
      hide *;
      while len > 0
        invariant 0 <= len < n <= BLOCK && len <= length && (n == BLOCK ==> len == length)
        invariant After(key, st, input[..len]).number == (if n == BLOCK then 0 else n)
        invariant ivec == After(key, st, input[..len]).vector
        decreases len
      {
        n := n - 1;
        len := len - 1;
        UndoByte(key, st, input, len, output, ivec);
        StreamIsVector(key, After(key, st, input[..len]));
        ivec := ivec[n := Xor(input[len], output[len])];
      }
    }
  }

  lemma NothingDecrypted(key: BlockCipher, st: Status)
    requires st.Valid()
    ensures After(key, st, []) == st && Plain(key, st, []) == []
  {
  }

  lemma WholeAndNothing(s: Bytes)
    ensures s[..|s|] == s && s[..0] == []
  {
  }

  lemma {:induction false} PlainAt(key: BlockCipher, st: Status, s: Bytes, i: nat)
    requires st.Valid() && i < |s|
    ensures Plain(key, st, s)[i] == PlainByte(key, After(key, st, s[..i]), s[i])
  {
    Snoc(key, st, s, i);
    assert s == s[..i + 1] + s[i + 1..];
    Concat(key, st, s[..i + 1], s[i + 1..]);
  }

  /** Undoing the byte at position i turns the block into the key stream that it was made with. */
  lemma UndoByte(key: BlockCipher, st: Status, s: Bytes, i: nat, output: Bytes, ivec: Block)
    requires st.Valid() && i < |s| && output == Plain(key, st, s)
    requires ivec == After(key, st, s[..i + 1]).vector
    ensures var t := After(key, st, s[..i]);
            && ivec[t.number := Xor(s[i], output[i])] == KeyStream(key, t)
            && After(key, st, s[..i + 1]).number == if t.number + 1 == BLOCK then 0 else t.number + 1
  {
    Snoc(key, st, s, i);
    PlainAt(key, st, s, i);
    KeyByte(key, After(key, st, s[..i]), s[i]);
  }

  /** Sixteen bytes back the place in the block is the same. */
  lemma BlockStart(key: BlockCipher, st: Status, s: Bytes, i: nat)
    requires st.Valid() && i + BLOCK <= |s|
    ensures After(key, st, s[..i]).number == After(key, st, s[..i + BLOCK]).number
  {
    hide After;
    NumberAfter(key, st, s[..i]);
    NumberAfter(key, st, s[..i + BLOCK]);
  }

  /** The key stream of a block, seen from its start. */
  lemma StreamAt(key: BlockCipher, st: Status, s: Bytes, i: nat, n: nat)
    requires st.Valid() && n < BLOCK && i + n < |s| && After(key, st, s[..i]).number == 0
    ensures var t, a := After(key, st, s[..i]), After(key, st, s[..i + n]);
            a.number == n && KeyStream(key, a)[n] == key.encrypt(t.vector)[n]
  {
    var t, a, d, e := After(key, st, s[..i]), After(key, st, s[..i + n]), s[i..], s[i..][..n];
    assert s[..i + n] == s[..i] + e;
    Concat(key, st, s[..i], e);
    BlockStream(key, t, d, n);
    hide *;
    assert KeyStream(key, a)[n] == KeyStream(key, a)[n..][0];
    assert key.encrypt(t.vector)[n] == key.encrypt(t.vector)[n..][0];
  }

  lemma UndoInBlock(key: BlockCipher, st: Status, s: Bytes, i: nat, n: nat, output: Bytes)
    requires st.Valid() && n < BLOCK && i + BLOCK <= |s| && output == Plain(key, st, s)
    requires After(key, st, s[..i]).number == 0
    ensures Xor(s[i + n], output[i + n]) == key.encrypt(After(key, st, s[..i]).vector)[n]
  {
    StreamAt(key, st, s, i, n);
    PlainAt(key, st, s, i + n);
    KeyByte(key, After(key, st, s[..i + n]), s[i + n]);
  }

  /** The key stream of a block that has been begun is its status; at the start it has to be decrypted. */
  lemma StreamIsVector(key: BlockCipher, st: Status)
    requires Inverse(key)
    ensures if st.number == 0 then key.decrypt(KeyStream(key, st)) == st.vector else KeyStream(key, st) == st.vector
  {
  }
}
