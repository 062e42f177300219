/** Vectors of numbers and strings as bytes, and back. */
module MiniPbCoder {
  import opened Machine
  import opened Varint

  datatype Kind = TextKind | Int32Kind | UInt32Kind | Int64Kind | UInt64Kind

  datatype Element = Text(bytes: Bytes) | Int32(int32Value: int32) | UInt32(uint32Value: uint32)
                   | Int64(int64Value: int64) | UInt64(uint64Value: uint64)
  {
    function Kind(): Kind
    {
      match this
      case Text(_) => TextKind
      case Int32(_) => Int32Kind
      case UInt32(_) => UInt32Kind
      case Int64(_) => Int64Kind
      case UInt64(_) => UInt64Kind
    }

    /** The number that is written: that of the element itself, or the length of a string. */
    function Number(): uint64
    {
      match this
      case Text(bytes) => Wrap32(|bytes|)
      case Int32(x) => TwosComplement(x)
      case UInt32(x) => x
      case Int64(x) => TwosComplement(x)
      case UInt64(x) => x
    }

    function Encoded(): Bytes
    {
      Encode(Number()) + if Text? then bytes else []
    }

    /** The size that is computed beforehand. */
    function CompiledSize(): uint32
    {
      match this
      case Text(bytes) => Wrap32(Size(Wrap32(|bytes|)) + Wrap32(|bytes|))
      case Int32(x) => if x >= 0 then Size(x) else 10
      case UInt32(x) => Size(x)
      case Int64(x) => Size64(TwosComplement(x))
      case UInt64(x) => Size64(x)
    }

    /** A string whose length is a nonnegative 32-bit number, or any number. */
    predicate Readable()
    {
      Text? ==> |bytes| < TWO_31
    }
  }

  function TwosComplement(x: int64): (n: uint64)
    ensures x < 0 ==> n >= 0x8000_0000_0000_0000
  {
    if x < 0 then x + TWO_64 else x
  }

  /** The precomputed size is the size, as far as 32 bits can tell. */
  lemma CompiledSizeIsLength(e: Element)
    ensures e.CompiledSize() == |e.Encoded()| % 0x1_0000_0000
  {
    hide Encode;
    Size64IsLength(e.Number());
    if e.Number() < TWO_32 {
      SizeIsLength(e.Number());
    }
  }

  /** The elements one behind the other. */
  function Body(v: seq<Element>): Bytes
  {
    if v == [] then [] else v[0].Encoded() + Body(v[1..])
  }

  function EncodedVector(v: seq<Element>): Bytes
  {
    Encode(|Body(v)|) + Body(v)
  }

  // ---- Preparing ----

  datatype Payload = Container | Value(element: Element)

  datatype EncodeItem = EncodeItem(payload: Payload, compiledSize: uint32, valueSize: uint32)
  {
    function Written(): Bytes
    {
      match payload
      case Container => Encode(valueSize)
      case Value(e) => e.Encoded()
    }
  }

  function Prepared(e: Element): EncodeItem
  {
    EncodeItem(Value(e), e.CompiledSize(), if e.Text? then Wrap32(|e.bytes|) else 0)
  }

  function PreparedAll(v: seq<Element>): (s: seq<EncodeItem>)
    ensures |s| == |v| && forall i :: 0 <= i < |v| ==> s[i] == Prepared(v[i])
  {
    seq(|v|, i requires 0 <= i < |v| => Prepared(v[i]))
  }

  function PreparedContainer(valueSize: uint32): EncodeItem
  {
    EncodeItem(Container, Wrap32(Size(valueSize) + valueSize), valueSize)
  }

  function Flat(items: seq<EncodeItem>): Bytes
  {
    if items == [] then [] else items[0].Written() + Flat(items[1..])
  }

  lemma {:induction false} FlatSnoc(items: seq<EncodeItem>, x: EncodeItem)
    ensures Flat(items + [x]) == Flat(items) + x.Written()
  {
    hide EncodeItem.Written;
    if items == [] {
      assert items + [x] == [x] && [x][1..] == [];
    } else {
      assert (items + [x])[1..] == items[1..] + [x];
      FlatSnoc(items[1..], x);
    }
  }

  lemma {:induction false} BodySnoc(v: seq<Element>, x: Element)
    ensures Body(v + [x]) == Body(v) + x.Encoded()
  {
    hide Element.Encoded;
    if v == [] {
      assert v + [x] == [x] && [x][1..] == [];
    } else {
      assert (v + [x])[1..] == v[1..] + [x];
      BodySnoc(v[1..], x);
    }
  }

  lemma {:induction false} FlatIsBody(v: seq<Element>)
    ensures Flat(PreparedAll(v)) == Body(v)
  {
    hide Element.Encoded, Element.CompiledSize;
    if v != [] {
      assert PreparedAll(v)[1..] == PreparedAll(v[1..]);
      FlatIsBody(v[1..]);
    }
  }

  class MiniPBCoder {
    var encodeItems: seq<EncodeItem>

    constructor ()
      ensures encodeItems == []
    {
      encodeItems := [];
    }

    method PrepareElement(e: Element) returns (index: nat)
      modifies this
      ensures encodeItems == old(encodeItems) + [Prepared(e)] && index == |old(encodeItems)|
    {
      encodeItems := encodeItems + [EncodeItem(Value(e), e.CompiledSize(), if e.Text? then Wrap32(|e.bytes|) else 0)];
      index := |encodeItems| - 1;
    }

    /** The container, and the elements behind it. */
    method PrepareVector(v: seq<Element>) returns (index: nat)
      modifies this
      ensures index == |old(encodeItems)|
      ensures encodeItems == old(encodeItems) + [PreparedContainer(Wrap32(|Body(v)|))] + PreparedAll(v)
    {
      hide Element.CompiledSize, Body, Prepared;
      ghost var was := encodeItems;
      encodeItems := encodeItems + [EncodeItem(Container, 0, 0)];
      index := |encodeItems| - 1;
      NothingPrepared();
      for i := 0 to |v|
        invariant index == |was|
        invariant encodeItems == was + [EncodeItem(Container, 0, Wrap32(|Body(v[..i])|))] + PreparedAll(v[..i])
      {
        assert v[..i + 1] == v[..i] + [v[i]];
        PreparedSnoc(v[..i], v[i]);
        var itemIndex := PrepareElement(v[i]);
        if itemIndex < |encodeItems| {
          var sum := Wrap32(encodeItems[index].valueSize + encodeItems[itemIndex].compiledSize);
          encodeItems := encodeItems[index := encodeItems[index].(valueSize := sum)];
        }
      }
      assert v[..|v|] == v;
      var valueSize := encodeItems[index].valueSize;
      encodeItems := encodeItems[index := encodeItems[index].(compiledSize := Wrap32(Size(valueSize) + valueSize))];
    }

    /** Writes all items into a new buffer; too small a buffer ends in an empty one. */
    method WritePreparedItems(index: nat) returns (r: Outcome)
      requires index < |encodeItems|
      ensures encodeItems[index].compiledSize == 0 ==> r == NoBuffer
      ensures encodeItems[index].compiledSize > 0 ==>
                && (|Flat(encodeItems)| > encodeItems[index].compiledSize ==> r == Buffer([]))
                && (|Flat(encodeItems)| == encodeItems[index].compiledSize ==> r == Buffer(Flat(encodeItems)))
    {
      hide Flat;
      if encodeItems[index].compiledSize > 0 {
        var outputBuffer := new uint8[encodeItems[index].compiledSize];
        var output := new CodedOutputData(outputBuffer);
        var ok := WriteRootObject(output);
        return if ok then Buffer(outputBuffer[..]) else Buffer([]);
      }
      return NoBuffer;
    }

    method WriteRootObject(output: CodedOutputData) returns (ok: bool)
      requires output.Valid() && output.position == 0
      modifies output, output.buffer
      ensures output.Valid()
      ensures ok <==> |Flat(encodeItems)| <= output.buffer.Length
      ensures ok ==> output.Written() == Flat(encodeItems)
    {
      hide Flat, EncodeItem.Written, Encode;
      NothingFlat();
      for i := 0 to |encodeItems|
        invariant output.Valid() && output.Written() == Flat(encodeItems[..i])
      {
        ghost var done := encodeItems[..i];
        assert encodeItems[..i + 1] == done + [encodeItems[i]];
        FlatSnoc(done, encodeItems[i]);
        ok := output.WriteItem(encodeItems[i]);
        if !ok {
          FlatGrows(encodeItems, i + 1);
          return;
        }
      }
      assert encodeItems[..|encodeItems|] == encodeItems;
      ok := true;
    }
  }

  /** A buffer, or what comes of it when none has been allocated. */
  datatype Outcome = NoBuffer | Buffer(bytes: Bytes)

  lemma NothingPrepared()
    ensures Body([]) == [] && PreparedAll([]) == []
  {
  }

  lemma NothingFlat()
    ensures Flat([]) == []
  {
  }

  lemma PreparedSnoc(v: seq<Element>, e: Element)
    ensures PreparedAll(v + [e]) == PreparedAll(v) + [Prepared(e)]
    ensures Wrap32(|Body(v + [e])|) == Wrap32(Wrap32(|Body(v)|) + e.CompiledSize())
    ensures Prepared(e).compiledSize == e.CompiledSize()
  {
    hide Element.Encoded, Element.CompiledSize, Body;
    BodySnoc(v, e);
    CompiledSizeIsLength(e);
    WrapSum(|Body(v)|, |e.Encoded()|);
  }

  lemma WrapSum(a: nat, b: nat)
    ensures (a + b) % 0x1_0000_0000 == (a % 0x1_0000_0000 + b % 0x1_0000_0000) % 0x1_0000_0000
  {
  }

  lemma {:induction false} FlatGrows(items: seq<EncodeItem>, i: nat)
    requires i <= |items|
    ensures |Flat(items[..i])| <= |Flat(items)|
    decreases |items|
  {
    hide EncodeItem.Written;
    if i == 0 || items == [] {
      assert items[..i] == [];
    } else {
      assert items[..i][1..] == items[1..][..i - 1];
      FlatGrows(items[1..], i - 1);
    }
  }

  // ---- Writing ----

  class CodedOutputData {
    const buffer: array<uint8>
    var position: nat

    ghost predicate Valid()
      reads this
    {
      position <= buffer.Length
    }

    constructor (buffer: array<uint8>)
      ensures Valid() && this.buffer == buffer && position == 0
    {
      this.buffer, position := buffer, 0;
    }

    ghost function Written(): Bytes
      requires Valid()
      reads this, buffer
    {
      buffer[..position]
    }

    method WriteRawByte(value: uint8) returns (ok: bool)
      requires Valid()
      modifies this, buffer
      ensures Valid() && (ok <==> old(position) < buffer.Length)
      ensures ok ==> position == old(position) + 1 && Written() == old(Written()) + [value]
    {
      if position == buffer.Length {
        return false;
      }
      buffer[position] := value;
      position := position + 1;
      ok := true;
    }

    method WriteRawVarint(n: uint64) returns (ok: bool)
      requires Valid()
      modifies this, buffer
      ensures Valid() && (ok <==> old(position) + |Encode(n)| <= buffer.Length)
      ensures ok ==> Written() == old(Written()) + Encode(n)
    {
      hide Encode;
      var value := n;
      ghost var was: Bytes, done: Bytes := Written(), [];
      assert was + [] == was;
      while value >= 128
        invariant 0 <= value && Valid() && Written() == was + done && Encode(n) == done + Encode(value)
      {
        EncodeMore(value);
        ok := WriteRawByte(value % 128 + 128);
        if !ok {
          return;
        }
        Grouped(was, done, value % 128 + 128, Encode(value / 128));
        done := done + [value % 128 + 128];
        value := value / 128;
      }
      EncodeMore(value);
      ok := WriteRawByte(value);
      Grouped(was, done, value, []);
    }

    method WriteRawData(data: Bytes) returns (ok: bool)
      requires Valid()
      modifies this, buffer
      ensures Valid() && (ok <==> old(position) + |data| <= buffer.Length)
      ensures ok ==> Written() == old(Written()) + data
    {
      if position + |data| > buffer.Length {
        return false;
      }
      forall i | 0 <= i < |data| {
        buffer[position + i] := data[i];
      }
      position := position + |data|;
      ok := true;
    }

    method WriteItem(item: EncodeItem) returns (ok: bool)
      requires Valid()
      modifies this, buffer
      ensures Valid() && (ok <==> old(position) + |item.Written()| <= buffer.Length)
      ensures ok ==> Written() == old(Written()) + item.Written()
    {
      hide Encode, TwosComplement;
      match item.payload
      case Container => ok := WriteRawVarint(item.valueSize);
      case Value(e) =>
        ok := WriteRawVarint(e.Number());
        if ok && e.Text? {
          ok := WriteRawData(e.bytes);
        }
    }
  }

  lemma EncodeMore(n: nat)
    ensures Encode(n) == if n < 128 then [n] else [n % 128 + 128] + Encode(n / 128)
  {
  }

  lemma Grouped(a: Bytes, b: Bytes, c: uint8, d: Bytes)
    ensures (a + b) + [c] == a + (b + [c]) && b + ([c] + d) == (b + [c]) + d && (d == [] ==> b + [c] == b + ([c] + d))
  {
  }

  /** The encoded vector, if its size fits into 32 bits, and otherwise nothing: the buffer is then too small. */
  method GetEncodeData(v: seq<Element>) returns (r: Outcome)
    ensures |EncodedVector(v)| < TWO_32 ==> r == Buffer(EncodedVector(v))
    ensures |EncodedVector(v)| >= TWO_32 ==>
              r == if |Body(v)| % 0x1_0000_0000 == 0xFFFF_FFFB then NoBuffer else Buffer([])
  {
    hide Body, Flat, PreparedAll, Encode, PreparedContainer, EncodedVector;
    var coder := new MiniPBCoder();
    var index := coder.PrepareVector(v);
    RootSize(v, coder.encodeItems);
    r := coder.WritePreparedItems(index);
  }

  lemma RootSize(v: seq<Element>, items: seq<EncodeItem>)
    requires items == [] + [PreparedContainer(Wrap32(|Body(v)|))] + PreparedAll(v)
    ensures var size := items[0].compiledSize;
            if |EncodedVector(v)| < TWO_32 then size == |EncodedVector(v)| && size > 0
              && Flat(items) == EncodedVector(v)
            else |Flat(items)| > size && (size == 0 <==> |Body(v)| % 0x1_0000_0000 == 0xFFFF_FFFB)
  {
    hide Body, Encode, PreparedAll;
    var body := Body(v);
    assert items[1..] == PreparedAll(v);
    FlatIsBody(v);
    var n: uint32 := Wrap32(|body|);
    SizeIsLength(n);
    assert Flat(items) == Encode(n) + body;
    if |body| < TWO_32 {
      assert n == |body|;
    }
  }

  // ---- Decoding ----

  function FromTwosComplement32(n: uint32): int32
  {
    if n >= TWO_31 then n - TWO_32 else n
  }

  function FromTwosComplement(n: uint64): int64
  {
    if n >= 0x8000_0000_0000_0000 then n - TWO_64 else n
  }

  lemma ComplementUndone(x: int64)
    ensures FromTwosComplement(TwosComplement(x)) == x
    ensures -0x8000_0000 <= x < 0x8000_0000 ==> FromTwosComplement32(TwosComplement(x) % 0x1_0000_0000) == x
  {
  }

  /** Reads a string. */
  method ReadString(input: CodedInputData, ghost b: Bytes) returns (r: Result<Bytes>)
    requires input.Valid()
    modifies input
    ensures input.Valid() && (r.Ok? ==> old(input.position) < input.position)
    ensures Text(b).Encoded() <= old(input.Rest()) ==>
              if Wrap32(|b|) >= TWO_31 then r == Err(NegativeSize)
              else |b| < TWO_31 ==> r == Ok(b) && input.position == old(input.position) + |Text(b).Encoded()|
  {
    hide Encode;
    ghost var s, p := input.Rest(), input.position;
    if Text(b).Encoded() <= s {
      TwoParts(Encode(Wrap32(|b|)), b, s);
    }
    var size := input.ReadRawVarint32();
    if size.Err? {
      return Err(size.error);
    }
    if size.value >= TWO_31 {
      return Err(NegativeSize);
    }
    if size.value <= input.size - input.position {
      r := Ok(input.bytes[input.position..input.position + size.value]);
      RestFrom(input, s, p);
      input.position := input.position + size.value;
    } else {
      return Err(Truncated);
    }
  }

  lemma TwoParts(a: Bytes, b: Bytes, s: Bytes)
    requires a + b <= s
    ensures a <= s && b <= s[|a|..] && s[|a|..][..|b|] == b
  {
    assert (a + b)[..|a|] == a && (a + b)[|a|..] == b;
    assert s[..|a + b|][|a|..] == s[|a|..][..|b|];
  }

  lemma RestFrom(input: CodedInputData, s: Bytes, p: nat)
    requires input.Valid() && p <= input.position && s == input.bytes[p..input.size]
    ensures input.Rest() == s[input.position - p..]
    ensures forall m :: input.position <= m <= input.size ==>
              input.bytes[input.position..m] == s[input.position - p..][..m - input.position]
  {
  }

  /** Reads an element of a kind. */
  method ReadElement(input: CodedInputData, kind: Kind, ghost e: Element) returns (r: Result<Element>)
    requires input.Valid()
    modifies input
    ensures input.Valid() && (r.Ok? ==> old(input.position) < input.position)
    ensures e.Kind() == kind && e.Encoded() <= old(input.Rest()) ==>
              if e.Text? && Wrap32(|e.bytes|) >= TWO_31 then r == Err(NegativeSize)
              else e.Readable() ==> r == Ok(e) && input.position == old(input.position) + |e.Encoded()|
  {
    hide Encode, TwosComplement, FromTwosComplement, FromTwosComplement32, Wrap32;
    ghost var s := input.Rest();
    match kind
    case TextKind =>
      var t := ReadString(input, if e.Text? then e.bytes else []);
      r := if t.Ok? then Ok(Text(t.value)) else Err(t.error);
    case Int32Kind =>
      NumberInFront(e, s);
      var n := input.ReadRawVarint32();
      r := if n.Ok? then Ok(Int32(FromTwosComplement32(n.value))) else Err(n.error);
    case UInt32Kind =>
      NumberInFront(e, s);
      var n := input.ReadRawVarint32();
      r := if n.Ok? then Ok(UInt32(n.value)) else Err(n.error);
    case Int64Kind =>
      NumberInFront(e, s);
      var n := input.ReadInt64();
      r := if n.Ok? then Ok(Int64(FromTwosComplement(n.value))) else Err(n.error);
    case UInt64Kind =>
      NumberInFront(e, s);
      var n := input.ReadInt64();
      r := if n.Ok? then Ok(UInt64(n.value)) else Err(n.error);
  }

  lemma NumberInFront(e: Element, s: Bytes)
    ensures !e.Text? && e.Encoded() <= s ==> Encode(e.Number()) <= s && e.Encoded() == Encode(e.Number())
    ensures e.Int32? ==> FromTwosComplement32(Wrap32(e.Number())) == e.int32Value
    ensures e.Int64? ==> FromTwosComplement(e.Number()) == e.int64Value
    ensures e.UInt32? ==> Wrap32(e.Number()) == e.uint32Value
  {
    hide Encode;
    if e.Int32? {
      ComplementUndone(e.int32Value);
    } else if e.Int64? {
      ComplementUndone(e.int64Value);
    }
    assert e.Encoded() == Encode(e.Number()) + if e.Text? then e.bytes else [];
    assert Encode(e.Number()) + [] == Encode(e.Number());
  }

  predicate AllOfKind(v: seq<Element>, kind: Kind)
  {
    forall i :: 0 <= i < |v| ==> v[i].Kind() == kind
  }

  predicate AllReadable(v: seq<Element>)
  {
    forall i :: 0 <= i < |v| ==> v[i].Readable()
  }

  /** Reads the size, and then elements until nothing is left; an encoded vector comes back, unless one of its
      strings is so long that its length is taken for a negative number. */
  method DecodeOneVector(input: CodedInputData, kind: Kind, ghost v: seq<Element>) returns (r: Result<seq<Element>>)
    requires input.Valid()
    modifies input
    ensures input.Valid()
    ensures AllOfKind(v, kind) && |EncodedVector(v)| < TWO_32 && old(input.Rest()) == EncodedVector(v) ==>
              r == if AllReadable(v) then Ok(v) else Err(NegativeSize)
  {
    hide Encode, Body, AllReadable, AllOfKind, Decoded, Element.Encoded, Element.Readable, Wrap32;
    ghost var s, p := input.Rest(), input.position;
    ghost var fine := AllOfKind(v, kind) && |EncodedVector(v)| < TWO_32 && s == EncodedVector(v);
    if fine {
      TwoParts(Encode(|Body(v)|), Body(v), s);
    }
    var size := input.ReadRawVarint32();
    if size.Err? {
      return Err(size.error);
    }
    if fine {
      RestFrom(input, s, p);
      BehindSize(v, s);
    }
    var result: seq<Element> := [];
    while input.position < input.size
      invariant input.Valid() && p <= input.position
      invariant fine ==> Decoded(v, result, input.Rest())
      decreases input.size - input.position
    {
      ghost var rest, q := input.Rest(), input.position;
      if fine {
        NextElement(v, kind, result, rest);
      }
      var e := ReadElement(input, kind, if fine then v[|result|] else UInt32(0));
      if e.Err? {
        return Err(e.error);
      }
      if fine {
        RestFrom(input, rest, q);
      }
      result := result + [e.value];
    }
    if fine {
      NothingBehind(v, result);
    }
    r := Ok(result);
  }

  /** What has been read of a vector, and what is left. */
  ghost predicate Decoded(v: seq<Element>, result: seq<Element>, rest: Bytes)
  {
    |result| <= |v| && result == v[..|result|] && rest == Body(v[|result|..]) && AllReadable(result)
  }

  lemma BehindSize(v: seq<Element>, s: Bytes)
    requires s == EncodedVector(v)
    ensures Decoded(v, [], s[|Encode(|Body(v)|)|..])
  {
    hide Encode, Body;
    assert v[0..] == v;
  }

  lemma NextElement(v: seq<Element>, kind: Kind, result: seq<Element>, rest: Bytes)
    requires AllOfKind(v, kind) && Decoded(v, result, rest) && 0 < |rest| < TWO_32
    ensures |result| < |v|
    ensures var e := v[|result|];
            && e.Kind() == kind && e.Encoded() <= rest && (e.Readable() <==> !(e.Text? && Wrap32(|e.bytes|) >= TWO_31))
            && (!e.Readable() ==> !AllReadable(v))
            && (e.Readable() ==> Decoded(v, result + [e], rest[|e.Encoded()|..]))
  {
    hide Encode, Wrap32;
    var n := |result|;
    assert v[n..] != [] ==> v[n..][0] == v[n] && v[n..][1..] == v[n + 1..];
    assert v[n].Text? ==> |v[n].bytes| <= |v[n].Encoded()| <= |rest|;
    if v[n].Text? {
      SmallLength(|v[n].bytes|);
    }
  }

  lemma SmallLength(n: nat)
    requires n < TWO_32
    ensures Wrap32(n) == n
  {
  }

  lemma NothingBehind(v: seq<Element>, result: seq<Element>)
    requires Decoded(v, result, [])
    ensures result == v && AllReadable(v)
  {
    BodyEmpty(v[|result|..]);
  }

  lemma BodyEmpty(v: seq<Element>)
    ensures Body(v) == [] <==> v == []
  {
    if v != [] {
      assert v[0].Encoded() != [];
    }
  }
}
