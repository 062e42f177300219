/** The variable-length integers of the key-value file: seven bits a byte, the lowest first. */
module Varint {
  import opened Arith
  import opened Machine

  function Encode(n: nat): (s: seq<uint8>)
    ensures |s| >= 1
  {
    if n < 128 then [n] else [n % 128 + 128] + Encode(n / 128)
  }

  /** The size that the writer computes beforehand. */
  function Size(n: uint32): (r: nat)
    ensures 1 <= r <= 5
  {
    if n < 0x80 then 1
    else if n < 0x4000 then 2
    else if n < 0x20_0000 then 3
    else if n < 0x1000_0000 then 4
    else 5
  }

  lemma SizeIsLength(n: uint32)
    ensures Size(n) == |Encode(n)|
  {
    assert |Encode(n)| == if n < 128 then 1 else 1 + |Encode(n / 128)|;
    assert n >= 0x80 ==> |Encode(n / 128)| == if n / 128 < 128 then 1 else 1 + |Encode(n / 128 / 128)|;
    assert n >= 0x4000
      ==> |Encode(n / 128 / 128)| == if n / 128 / 128 < 128 then 1 else 1 + |Encode(n / 128 / 128 / 128)|;
    assert n >= 0x20_0000 ==>
        |Encode(n / 128 / 128 / 128)| == if n / 128 / 128 / 128 < 128 then 1
          else 1 + |Encode(n / 128 / 128 / 128 / 128)|;
    assert n >= 0x1000_0000 ==> |Encode(n / 128 / 128 / 128 / 128)| == 1;
  }

  /** The size of a 64-bit number. */
  function Size64(n: uint64): (r: nat)
    ensures 1 <= r <= 10
  {
    if n < 0x80 then 1
    else if n < 0x4000 then 2
    else if n < 0x20_0000 then 3
    else if n < 0x1000_0000 then 4
    else if n < 0x8_0000_0000 then 5
    else if n < 0x400_0000_0000 then 6
    else if n < 0x2_0000_0000_0000 then 7
    else if n < 0x100_0000_0000_0000 then 8
    else if n < 0x8000_0000_0000_0000 then 9
    else 10
  }

  lemma Size64IsLength(n: uint64)
    ensures Size64(n) == |Encode(n)|
  {
    LengthStep(n);
    if n >= 0x80 { LengthStep(n / 128); }
    if n >= 0x4000 { LengthStep(n / 0x4000); }
    if n >= 0x20_0000 { LengthStep(n / 0x20_0000); }
    if n >= 0x1000_0000 { SizeOfHigh(n, n / 0x1000_0000); }
  }

  lemma SizeOfHigh(n: uint64, high: nat)
    requires n >= 0x1000_0000 && high == n / 0x1000_0000
    ensures Size64(n) == 4 + |Encode(high)|
  {
    LengthStep(high);
    if high >= 0x80 { LengthStep(high / 128); }
    if high >= 0x4000 { LengthStep(high / 0x4000); }
    if high >= 0x20_0000 { LengthStep(high / 0x20_0000); }
    if high >= 0x1000_0000 { LengthStep(high / 0x1000_0000); LengthStep(high / 0x1000_0000 / 128); }
  }

  lemma LengthStep(n: nat)
    ensures |Encode(n)| == if n < 128 then 1 else 1 + |Encode(n / 128)|
  {
  }

  // ---- Writing into a buffer ----

  /** s with the bytes from position p on replaced by d. */
  function Splice(s: seq<uint8>, p: nat, d: seq<uint8>): (r: seq<uint8>)
    requires p + |d| <= |s|
    ensures |r| == |s| && r[..p] == s[..p] && r[p..p + |d|] == d && r[p + |d|..] == s[p + |d|..]
  {
    s[..p] + d + s[p + |d|..]
  }

  /** Writing one piece behind another is writing both. */
  lemma SpliceTwice(s: seq<uint8>, p: nat, d: seq<uint8>, e: seq<uint8>)
    requires p + |d| + |e| <= |s|
    ensures Splice(Splice(s, p, d), p + |d|, e) == Splice(s, p, d + e)
  {
    var r := Splice(s, p, d);
    assert r[..p + |d|] == s[..p] + d;
    assert r[p + |d| + |e|..] == s[p + |d| + |e|..];
  }

  method WriteVarint(buffer: array<uint8>, position: nat, n: uint32) returns (newPosition: nat)
    requires position + |Encode(n)| <= buffer.Length
    modifies buffer
    ensures newPosition == position + |Encode(n)|
    ensures buffer[..] == Splice(old(buffer[..]), position, Encode(n))
  {
    hide Splice;
    var value := n;
    newPosition := position;
    ghost var done: seq<uint8> := [];
    ghost var was := buffer[..];
    SpliceNothing(was, position);
    while value >= 128
      invariant 0 <= value && newPosition == position + |done|
      invariant done + Encode(value) == Encode(n)
      invariant newPosition + |Encode(value)| <= buffer.Length
      invariant buffer[..] == Splice(was, position, done)
    {
      WriteByte(buffer, newPosition, value % 128 + 128);
      SpliceTwice(was, position, done, [value % 128 + 128]);
      assert done + Encode(value) == (done + [value % 128 + 128]) + Encode(value / 128);
      done := done + [value % 128 + 128];
      newPosition := newPosition + 1;
      value := value / 128;
    }
    WriteByte(buffer, newPosition, value);
    SpliceTwice(was, position, done, [value]);
    newPosition := newPosition + 1;
  }

  lemma SpliceNothing(s: seq<uint8>, p: nat)
    requires p <= |s|
    ensures Splice(s, p, []) == s
  {
  }

  method WriteByte(buffer: array<uint8>, position: nat, b: uint8)
    requires position < buffer.Length
    modifies buffer
    ensures buffer[..] == Splice(old(buffer[..]), position, [b])
  {
    buffer[position] := b;
  }

  method WriteRaw(buffer: array<uint8>, position: nat, data: seq<uint8>) returns (newPosition: nat)
    requires position + |data| <= buffer.Length
    modifies buffer
    ensures newPosition == position + |data|
    ensures buffer[..] == Splice(old(buffer[..]), position, data)
  {
    forall i | 0 <= i < |data| {
      buffer[position + i] := data[i];
    }
    newPosition := position + |data|;
  }

  // ---- Reading ----

  datatype Error = ReachEnd | Malformed | NegativeSize | Truncated

  datatype Result<T> = Ok(value: T) | Err(error: Error)

  /** The seven bits that a byte carries. */
  function Low(b: uint8): (r: nat)
    ensures r < 128 && (b >= 128 ==> b == r + 128)
  {
    b % 128
  }

  /** A reader over the first `size` bytes of a buffer. */
  class CodedInputData {
    const bytes: array<uint8>
    const size: nat
    var position: nat

    ghost predicate Valid()
      reads this
    {
      position <= size <= bytes.Length
    }

    constructor (data: array<uint8>, length: nat)
      requires length <= data.Length
      ensures Valid() && bytes == data && size == length && position == 0
    {
      bytes, size, position := data, length, 0;
    }

    /** What has not been read. */
    ghost function Rest(): (s: seq<uint8>)
      requires Valid()
      reads this, bytes
      ensures |s| == size - position
    {
      bytes[position..size]
    }

    method Seek(addedSize: nat) returns (r: Result<()>)
      requires Valid()
      modifies this
      ensures Valid() && (r.Ok? <==> addedSize <= size - old(position))
      ensures r.Ok? ==> position == old(position) + addedSize
    {
      if position + addedSize > size {
        return Err(Truncated);
      }
      position := position + addedSize;
      return Ok(());
    }

    method ReadRawByte() returns (r: Result<uint8>)
      requires Valid()
      modifies this
      ensures Valid() && (r.Ok? <==> old(position) < size)
      ensures r.Ok? ==> position == old(position) + 1 && r.value == bytes[old(position)]
      ensures r.Err? ==> position == old(position)
    {
      if position == size {
        return Err(ReachEnd);
      }
      r := Ok(bytes[position]);
      position := position + 1;
    }

    /** Reads a 32-bit number; of what an encoder wrote the lower 32 bits come back, and exactly its bytes are
        consumed. */
    method ReadRawVarint32() returns (r: Result<uint32>)
      requires Valid()
      modifies this
      ensures Valid() && old(position) <= position && (r.Ok? ==> old(position) < position)
      ensures forall n: uint64 :: Encode(n) <= old(Rest())
               ==> r == Ok(Wrap32(n)) && position == old(position) + |Encode(n)|
    {
      hide Encode, Wrap32, Low;
      ghost var s := Rest();
      ghost var p := position;
      assert forall i :: 0 <= i < |s| ==> s[i] == bytes[p + i];
      AllSpelled(s);
      var b0 := ReadRawByte();
      if b0.Err? { return Err(b0.error); }
      if b0.value < 128 { return Ok(b0.value); }
      var b1 := ReadRawByte();
      if b1.Err? { return Err(b1.error); }
      if b1.value < 128 { return Ok(Low(b0.value) + b1.value * 0x80); }
      var b2 := ReadRawByte();
      if b2.Err? { return Err(b2.error); }
      if b2.value < 128 { return Ok(Low(b0.value) + Low(b1.value) * 0x80 + b2.value * 0x4000); }
      var b3 := ReadRawByte();
      if b3.Err? { return Err(b3.error); }
      if b3.value < 128 {
        return Ok(Low(b0.value) + Low(b1.value) * 0x80 + Low(b2.value) * 0x4000 + b3.value * 0x20_0000);
      }
      r := ReadUpper(Low(b0.value) + Low(b1.value) * 0x80 + Low(b2.value) * 0x4000 + Low(b3.value) * 0x20_0000, s);
    }

    /** Reads the upper four bits behind the 28 lower ones of a number that s begins with. */
    method ReadUpper(low: nat, ghost s: seq<uint8>) returns (r: Result<uint32>)
      requires Valid() && 4 <= position && s == bytes[position - 4..size] && (forall i :: 0 <= i < 4 ==> s[i] >= 128)
      requires low == Low(s[0]) + Low(s[1]) * 0x80 + Low(s[2]) * 0x4000 + Low(s[3]) * 0x20_0000
      modifies this
      ensures Valid() && old(position) <= position
      ensures forall n: uint64 :: Encode(n) <= s ==> r == Ok(Wrap32(n)) && position == old(position) - 4 + |Encode(n)|
    {
      hide Encode, Wrap32, Low;
      assert forall i :: 4 <= i < |s| ==> s[i] == bytes[position - 4 + i];
      AllSpelled(s);
      var b4 := ReadRawByte();
      if b4.Err? { return Err(b4.error); }
      var result: uint32 := low + (b4.value % 16) * 0x1000_0000;
      if b4.value >= 128 {
        r := DiscardUpper(result);
        return;
      }
      return Ok(result);
    }

    /** Discards the upper 32 bits. */
    method DiscardUpper(result: uint32) returns (r: Result<uint32>)
      requires Valid()
      modifies this
      ensures Valid() && old(position) <= position && (r.Ok? ==> r.value == result)
      ensures forall k :: old(position) <= k < size && k < old(position) + 5 && bytes[k] < 128
                          && (forall i :: old(position) <= i < k ==> bytes[i] >= 128)
                          ==> r == Ok(result) && position == k + 1
    {
      for i := 0 to 5
        invariant Valid() && position == old(position) + i
        invariant forall j :: old(position) <= j < position ==> bytes[j] >= 128
      {
        var b := ReadRawByte();
        if b.Err? { return Err(b.error); }
        if b.value < 128 { return Ok(result); }
      }
      return Err(Malformed);
    }

    /** Reads a 64-bit number. */
    method ReadInt64() returns (r: Result<uint64>)
      requires Valid()
      modifies this
      ensures Valid() && old(position) <= position && (r.Ok? ==> old(position) < position)
      ensures forall n: uint64 :: Encode(n) <= old(Rest()) ==> r == Ok(n) && position == old(position) + |Encode(n)|
    {
      hide Encode, ReadSoFar;
      ghost var s := Rest();
      ghost var p := position;
      assert forall i :: 0 <= i < |s| ==> s[i] == bytes[p + i];
      NothingRead(s);
      var result: uint64, shift, weight := 0, 0, 1;
      while shift < 64
        invariant 0 <= shift <= 70 && shift % 7 == 0 && weight > 0 && Valid() && position == p + shift / 7
        invariant ReadSoFar(s, shift / 7, weight, result)
        decreases 70 - shift
      {
        ReadMore(s, shift / 7, weight, result);
        var b := ReadRawByte();
        if b.Err? { return Err(b.error); }
        result := Wrap64(result + Low(b.value) * weight);
        if b.value < 128 {
          return Ok(result);
        }
        shift := shift + 7;
        weight := weight * 128;
      }
      NothingLeft(s, weight, result);
      return Err(Malformed);
    }

    /** For each number that s may begin with: what has been read of it after i bytes. */
    static ghost predicate ReadSoFar(s: seq<uint8>, i: nat, weight: nat, result: uint64)
      requires weight > 0
    {
      forall n: uint64 :: Encode(n) <= s ==> PartRead(s, i, weight, result, n)
    }

    static ghost predicate PartRead(s: seq<uint8>, i: nat, weight: nat, result: uint64, n: uint64)
      requires weight > 0
    {
      i <= |s| && result == n % weight && Encode(n / weight) <= s[i..] && i + |Encode(n / weight)| == |Encode(n)| <= 10
    }

    static lemma NothingRead(s: seq<uint8>)
      ensures ReadSoFar(s, 0, 1, 0)
    {
      hide Encode;
      forall n: uint64 | Encode(n) <= s
        ensures PartRead(s, 0, 1, 0, n)
      {
        Size64IsLength(n);
      }
    }

    static lemma NothingLeft(s: seq<uint8>, weight: nat, result: uint64)
      requires weight > 0 && ReadSoFar(s, 10, weight, result)
      ensures forall n: uint64 :: !(Encode(n) <= s)
    {
      hide Encode, PartRead;
      forall n: uint64
        ensures !(Encode(n) <= s)
      {
        AtMostTenBytes(s, weight, result, n);
      }
    }

    static lemma AtMostTenBytes(s: seq<uint8>, weight: nat, result: uint64, n: uint64)
      requires weight > 0
      ensures !PartRead(s, 10, weight, result, n)
    {
    }

    static lemma ReadMore(s: seq<uint8>, i: nat, weight: nat, result: uint64)
      requires weight > 0 && ReadSoFar(s, i, weight, result)
      ensures forall n: uint64 :: Encode(n) <= s ==>
                && i < |s|
                && (s[i] < 128 ==> Wrap64(result + Low(s[i]) * weight) == n && |Encode(n)| == i + 1)
      ensures i < |s| && s[i] >= 128 ==> ReadSoFar(s, i + 1, weight * 128, Wrap64(result + Low(s[i]) * weight))
    {
      hide Encode, Wrap64;
      forall n: uint64 | Encode(n) <= s
        ensures i < |s| && (s[i] < 128 ==> Wrap64(result + Low(s[i]) * weight) == n && |Encode(n)| == i + 1)
        ensures s[i] >= 128 ==> PartRead(s, i + 1, weight * 128, Wrap64(result + Low(s[i]) * weight), n)
      {
        assert PartRead(s, i, weight, result, n);
        PartMore(s, i, weight, result, n);
      }
    }

    static lemma PartMore(s: seq<uint8>, i: nat, weight: nat, result: uint64, n: uint64)
      requires weight > 0 && PartRead(s, i, weight, result, n)
      ensures i < |s| && (s[i] < 128 ==> Wrap64(result + Low(s[i]) * weight) == n && |Encode(n)| == i + 1)
      ensures s[i] >= 128 ==> PartRead(s, i + 1, weight * 128, Wrap64(result + Low(s[i]) * weight), n)
    {
      hide Encode;
      var q := n / weight;
      Unfold(q, s, i);
      NextSeven(n, weight);
      assert n == result + q * weight;
    }

    static lemma NextSeven(n: nat, w: nat)
      requires w > 0
      ensures n == n / w * w + n % w
      ensures n / (w * 128) == n / w / 128 && n % (w * 128) == n % w + n / w % 128 * w <= n
    {
      var q, r := n / w, n % w;
      var d := q % 128;
      assert q == q / 128 * 128 + d;
      MulAssoc(q / 128, 128, w);
      MulMonotone(d, 127, w);
      assert n == q / 128 * (w * 128) + (d * w + r) by {
        assert q * w == (q / 128 * 128) * w + d * w;
        assert 128 * w == w * 128;
      }
      DivUnique(n, w * 128, q / 128, d * w + r);
      MulMonotone(0, q / 128, w * 128);
    }

    static lemma AllSpelled(s: seq<uint8>)
      ensures forall n: uint64 :: Encode(n) <= s ==> Spelled(s, n)
    {
      forall n: uint64 | Encode(n) <= s
        ensures Spelled(s, n)
      {
        Spell(s, n);
      }
    }

    /** The bytes of a number at the front of s: where they end, and their lower 32 bits. */
    static ghost predicate Spelled(s: seq<uint8>, n: uint64)
    {
      var e := |Encode(n)|;
      && 1 <= e <= 10 && e <= |s| && (forall i :: 0 <= i < e - 1 ==> s[i] >= 128) && s[e - 1] < 128
      && (n < TWO_32 ==> e <= 5 && Wrap32(n) == n)
      && (e == 1 ==> Wrap32(n) == s[0])
      && (e == 2 ==> Wrap32(n) == Low(s[0]) + s[1] as int * 0x80)
      && (e == 3 ==> Wrap32(n) == Low(s[0]) + Low(s[1]) * 0x80 + s[2] as int * 0x4000)
      && (e == 4 ==> Wrap32(n) == Low(s[0]) + Low(s[1]) * 0x80 + Low(s[2]) * 0x4000 + s[3] as int * 0x20_0000)
      && (e > 4 ==> Wrap32(n) == Low(s[0]) + Low(s[1]) * 0x80 + Low(s[2]) * 0x4000 + Low(s[3]) * 0x20_0000
                                 + (s[4] % 16) as int * 0x1000_0000)
    }

    static lemma Spell(s: seq<uint8>, n: uint64)
      requires Encode(n) <= s
      ensures Spelled(s, n)
    {
      hide Encode;
      Size64IsLength(n);
      if n < TWO_32 { SizeIsLength(n); }
      Ends(n);
      var e := Encode(n);
      assert forall i :: 0 <= i < |e| ==> s[i] == e[i];
      LowBytes(n, s);
    }

    /** All bytes but the last have the upper bit set. */
    static lemma {:induction false} Ends(n: nat)
      ensures var e := Encode(n); (forall i :: 0 <= i < |e| - 1 ==> e[i] >= 128) && e[|e| - 1] < 128
    {
      if n >= 128 {
        Ends(n / 128);
      }
    }

    static lemma LowBytes(n: uint64, s: seq<uint8>)
      requires Encode(n) <= s
      ensures var e := |Encode(n)|;
              && (e == 1 ==> n == s[0])
              && (e == 2 ==> n == Low(s[0]) + s[1] as int * 0x80)
              && (e == 3 ==> n == Low(s[0]) + Low(s[1]) * 0x80 + s[2] as int * 0x4000)
              && (e == 4 ==> n == Low(s[0]) + Low(s[1]) * 0x80 + Low(s[2]) * 0x4000 + s[3] as int * 0x20_0000)
              && (e > 4 ==> n % TWO_32 == Low(s[0]) + Low(s[1]) * 0x80 + Low(s[2]) * 0x4000 + Low(s[3]) * 0x20_0000
                                          + (s[4] % 16) as int * 0x1000_0000)
    {
      hide Encode, Low;
      var n1 := n / 128;
      var n2 := n1 / 128;
      var n3 := n2 / 128;
      var n4 := n3 / 128;
      assert s[0..] == s;
      Front(n, s, 0);
      if n >= 128 { Front(n1, s, 1); }
      if n1 >= 128 { Front(n2, s, 2); }
      if n2 >= 128 { Front(n3, s, 3); }
      if n3 >= 128 { Front(n4, s, 4); }
      LowBits(n, n1, n2, n3, n4);
      WholeNumber(n, n1, n2, n3);
    }

    /** The first byte of a number that stands at position i. */
    static lemma Front(n: nat, s: seq<uint8>, i: nat)
      requires i <= |s| && Encode(n) <= s[i..]
      ensures i < |s| && Low(s[i]) == n % 128 && s[i] % 16 == n % 16
      ensures if n < 128 then |Encode(n)| == 1 && s[i] == n
              else |Encode(n)| == 1 + |Encode(n / 128)| && Encode(n / 128) <= s[i + 1..]
    {
      hide Encode;
      Unfold(n, s, i);
      LowerFour(n);
    }

    static lemma LowerFour(n: nat)
      ensures (n % 128 + 128) % 16 == n % 16
    {
      assert n % 128 + 128 - n % 16 == 16 * (n % 128 / 16 + 8);
    }

    static lemma WholeNumber(n: nat, n1: nat, n2: nat, n3: nat)
      requires n1 == n / 128 && n2 == n1 / 128 && n3 == n2 / 128
      ensures n1 < 128 ==> n == n % 128 + n1 * 0x80
      ensures n2 < 128 ==> n == n % 128 + n1 % 128 * 0x80 + n2 * 0x4000
      ensures n3 < 128 ==> n == n % 128 + n1 % 128 * 0x80 + n2 % 128 * 0x4000 + n3 * 0x20_0000
    {
    }

    static lemma LowBits(n: nat, n1: nat, n2: nat, n3: nat, n4: nat)
      requires n1 == n / 128 && n2 == n1 / 128 && n3 == n2 / 128 && n4 == n3 / 128
      ensures n % TWO_32 == n % 128 + n1 % 128 * 0x80 + n2 % 128 * 0x4000 + n3 % 128 * 0x20_0000 + n4 % 16 * 0x1000_0000
    {
      var r := n % 128 + n1 % 128 * 0x80 + n2 % 128 * 0x4000 + n3 % 128 * 0x20_0000 + n4 % 16 * 0x1000_0000;
      assert n == n4 / 16 * TWO_32 + r;
      DivUnique(n, TWO_32, n4 / 16, r);
    }

    static lemma Unfold(n: nat, s: seq<uint8>, i: nat)
      requires i <= |s| && Encode(n) <= s[i..]
      ensures i < |s|
      ensures if n < 128 then |Encode(n)| == 1 && s[i] == n
              else |Encode(n)| == 1 + |Encode(n / 128)| && s[i] == n % 128 + 128 && Encode(n / 128) <= s[i + 1..]
    {
      assert s[i..][0] == s[i] && s[i..][1..] == s[i + 1..];
      assert n >= 128 ==> Encode(n)[1..] == Encode(n / 128);
    }
  }
}
