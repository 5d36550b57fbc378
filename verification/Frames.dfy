/** Persistent frames: a header of little-endian integers, the bit size and the body's bytes; and
    payloads nested in a body behind a 32-bit size, at any bit offset. */
module Frames {
  import opened PoolModel
  import opened MachineWords
  import opened BitBufferModule

  const MAGIC: nat := 0x5053_4345
  const VERSION: nat := 1
  const HEADER: nat := 20

  /** The low bits of a number. */
  function ToBits(n: nat, width: nat): (r: Bits)
    ensures |r| == width
  {
    if width == 0 then [] else [n % 2 == 1] + ToBits(n / 2, width - 1)
  }

  lemma {:induction false} ValueOfBits(n: nat, width: nat)
    ensures Value(ToBits(n, width)) == n % Power(width)
    decreases width
  {
    if width > 0 {
      ValueOfBits(n / 2, width - 1);
      HalfModulo(n, Power(width - 1));
    }
  }

  lemma HalfModulo(n: nat, p: nat)
    requires p > 0
    ensures n % (2 * p) == n % 2 + 2 * (n / 2 % p)
  {
    var q, r := n / 2 / p, n / 2 % p;
    assert n / 2 == p * q + r;
    assert n == n % 2 + 2 * r + (2 * p) * q;
    Remains(n, 2 * p, q, n % 2 + 2 * r);
  }

  lemma Remains(n: nat, m: nat, q: nat, r: nat)
    requires m > 0 && r < m && n == r + m * q
    ensures n % m == r
  {
    Quotient(n, m, q, r);
  }

  lemma {:induction false} LowBits(n: nat, width: nat, k: nat)
    requires k <= width
    ensures ToBits(n, width)[..k] == ToBits(n, k)
    decreases width
  {
    if k > 0 {
      LowBits(n / 2, width - 1, k - 1);
      assert ToBits(n, width)[..k] == [n % 2 == 1] + ToBits(n / 2, width - 1)[..k - 1];
    }
  }

  lemma FitsWidth(n: nat, width: nat)
    requires n < Power(width)
    ensures Value(ToBits(n, width)) == n
  {
    ValueOfBits(n, width);
    Remains(n, Power(width), 0, n);
  }

  lemma {:induction false} PaddedValue(b: Bits, zeros: nat)
    ensures Value(b + Zeros(zeros)) == Value(b)
  {
    ValueSplit(b, Zeros(zeros));
    ZerosAreZero(zeros);
  }

  lemma HalfQuotient(n: nat, p: nat)
    requires p > 0
    ensures n / 2 / p == n / (2 * p)
  {
    var q, r := n / 2 / p, n / 2 % p;
    assert n / 2 == p * q + r;
    assert n == n % 2 + 2 * r + (2 * p) * q;
    Quotient(n, 2 * p, q, n % 2 + 2 * r);
  }

  lemma {:induction false} HighBits(n: nat, width: nat, k: nat)
    requires k <= width
    ensures ToBits(n, width)[k..] == ToBits(n / Power(k), width - k)
    decreases width
  {
    if k > 0 {
      HighBits(n / 2, width - 1, k - 1);
      HalfQuotient(n, Power(k - 1));
      assert ToBits(n, width)[k..] == ToBits(n / 2, width - 1)[k - 1..];
    } else {
      assert ToBits(n, width)[0..] == ToBits(n, width);
    }
  }

  /** Byte j of a packed number is its j-th digit to the base 256, the lowest first. */
  lemma ByteIsDigit(n: nat, count: nat, j: nat)
    requires j < count
    ensures Value(PackedByte(ToBits(n, 8 * count), j)) == n / Power(8 * j) % 256
  {
    hide ToBits, Power;
    var bits, high := ToBits(n, 8 * count), n / Power(8 * j);
    HighBits(n, 8 * count, 8 * j);
    LowBits(high, 8 * count - 8 * j, 8);
    ByteIsSlice(bits, j);
    assert bits[8 * j..][..8] == bits[8 * j..8 * j + 8];
    ValueOfBits(high, 8);
    PowersOfTwo();
  }

  lemma ByteIsSlice(bits: Bits, j: nat)
    requires 8 * j + 8 <= |bits|
    ensures PackedByte(bits, j) == bits[8 * j..8 * j + 8]
  {
  }

  /** The bytes of a little-endian integer. */
  method WriteLittleEndian(n: nat, count: nat) returns (bytes: seq<Bits>)
    requires count <= 8
    ensures bytes == Packed(ToBits(n, 8 * count))
    ensures |bytes| == count && forall j :: 0 <= j < count ==> Value(bytes[j]) == n / Power(8 * j) % 256
  {
    hide Packed, PackedByte, WordByte;
    var word := ToBits(n, 64);
    bytes := [];
    for k := 0 to count
      invariant |bytes| == k && forall j :: 0 <= j < k ==> bytes[j] == WordByte(word, j)
    {
      WordBytes(word, k);
      bytes := bytes + [LowByte(Shr(word, 8 * k))];
    }
    forall j | 0 <= j < count ensures bytes[j] == PackedByte(ToBits(n, 8 * count), j) { ByteOfWord(n, count, j); }
    IsPacked(ToBits(n, 8 * count), bytes);
    forall j | 0 <= j < count ensures Value(bytes[j]) == n / Power(8 * j) % 256 { ByteIsDigit(n, count, j); }
  }

  lemma ByteOfWord(n: nat, count: nat, j: nat)
    requires j < count <= 8
    ensures WordByte(ToBits(n, 64), j) == PackedByte(ToBits(n, 8 * count), j)
  {
    LowBits(n, 64, 8 * count);
    forall k | 0 <= k < 8 ensures WordByte(ToBits(n, 64), j)[k] == PackedByte(ToBits(n, 8 * count), j)[k] {
      assert ToBits(n, 64)[..8 * count][8 * j + k] == ToBits(n, 64)[8 * j + k];
    }
  }

  ghost function Number(input: seq<Bits>, at: nat, count: nat): nat
    requires AllBytes(input) && at + count <= |input|
  {
    Value(Unpacked(input[at..at + count], 8 * count))
  }

  /** Reading stops with an error when the stream is too short. */
  method ReadLittleEndian(input: seq<Bits>, at: nat, count: nat) returns (r: Option<nat>)
    requires AllBytes(input) && 0 < count <= 8
    ensures r.Some? <==> at + count <= |input|
    ensures r.Some? ==> r.value == Number(input, at, count)
  {
    if at + count > |input| {
      return None;
    }
    var word := ReadWindow(input, at, count);
    WindowIsNumber(input[at..at + count], count, word);
    return Some(Value(word));
  }

  lemma WindowIsNumber(part: seq<Bits>, count: nat, word: Bits)
    requires AllBytes(part) && |part| == count && 0 < count <= 8 && IsWord(word)
    requires forall j :: 0 <= j < 8 ==> WordByte(word, j) == if j < count then part[j] else Zeros(8)
    ensures Value(word) == Value(Unpacked(part, 8 * count))
  {
    hide WordByte, Unpacked, PackedByte;
    var bits := Unpacked(part, 8 * count);
    UnpackedSize(part, 8 * count);
    forall j | 0 <= j < count ensures PackedByte(bits, j) == part[j] { ByteOfUnpacked(part, j); }
    WholeBytesRead(bits, 0, 8 * count, word);
    assert bits[0..8 * count] == bits;
    PaddedValue(bits, 64 - 8 * count);
  }

  lemma UnpackedSize(part: seq<Bits>, n: nat)
    requires AllBytes(part) && n <= 8 * |part|
    ensures |Unpacked(part, n)| == n
  {
  }

  ghost function HeaderOf(kind: nat, bits: nat): seq<Bits> {
    Packed(ToBits(MAGIC, 32)) + Packed(ToBits(VERSION, 32)) + Packed(ToBits(kind, 32)) + Packed(ToBits(bits, 64))
  }

  /** Twenty bytes of header, then the body's bytes: the magic number, version one, the kind and the
      body's size in bits, each little-endian, the first three in four bytes and the last in eight. */
  method WriteFrame(kind: nat, body: BitBuffer) returns (out: seq<Bits>)
    requires body.Valid()
    ensures out == HeaderOf(kind, body.bitSize) + Packed(body.Content())
    ensures AllBytes(out) && |out| == 20 + (body.bitSize + 7) / 8 && out[20..] == body.bytes
    ensures Number(out, 0, 4) == 0x5053_4345 && Number(out, 4, 4) == 1
    ensures Number(out, 8, 4) == kind % Power(32) && Number(out, 12, 8) == body.bitSize % Power(64)
  {
    hide Packed, PackedByte, Unpacked, Number, Power;
    body.Layout();
    HeaderNumbers(kind, body.bitSize, body.bytes);
    var magic := WriteLittleEndian(MAGIC, 4);
    var version := WriteLittleEndian(VERSION, 4);
    var kindBytes := WriteLittleEndian(kind, 4);
    var size := WriteLittleEndian(body.bitSize, 8);
    out := magic + version + kindBytes + size;
    if body.bytes != [] {
      out := out + body.bytes;
    }
  }

  lemma HeaderNumbers(kind: nat, bits: nat, rest: seq<Bits>)
    requires AllBytes(rest)
    ensures var out := HeaderOf(kind, bits) + rest;
            && AllBytes(out) && |out| == 20 + |rest| && out[20..] == rest
            && Number(out, 0, 4) == 0x5053_4345 && Number(out, 4, 4) == 1
            && Number(out, 8, 4) == kind % Power(32) && Number(out, 12, 8) == bits % Power(64)
  {
    hide Packed, ToBits, HeaderOf, Number, Power;
    HeaderParts(kind, bits);
    PowersOfTwo();
    var h := HeaderOf(kind, bits);
    var out := h + rest;
    assert out[0..4] == h[0..4] && out[4..8] == h[4..8] && out[8..12] == h[8..12] && out[12..20] == h[12..20];
    NumberIs(out, 0, MAGIC, 4);
    NumberIs(out, 4, VERSION, 4);
    NumberIs(out, 8, kind, 4);
    NumberIs(out, 12, bits, 8);
    Reduced(MAGIC, Power(32));
    Reduced(VERSION, Power(32));
  }

  lemma NumberIs(input: seq<Bits>, at: nat, n: nat, count: nat)
    requires AllBytes(input) && at + count <= |input|
    requires input[at..at + count] == Packed(ToBits(n, 8 * count))
    ensures Number(input, at, count) == n % Power(8 * count)
  {
    hide Packed;
    UnpackPacked(ToBits(n, 8 * count));
    ValueOfBits(n, 8 * count);
  }

  /** A stream that starts with a frame of this kind. */
  ghost predicate Framed(input: seq<Bits>, kind: nat)
    requires AllBytes(input)
  {
    && HEADER <= |input|
    && Number(input, 0, 4) == MAGIC && Number(input, 4, 4) == VERSION && Number(input, 8, 4) == kind
    && HEADER + Bytes(Number(input, 12, 8)) <= |input|
  }

  /** The body comes back canonical: exactly the bytes its bit size needs were read. */
  method ReadFrame(input: seq<Bits>, kind: nat) returns (body: Option<BitBuffer>)
    requires AllBytes(input)
    ensures body.Some? <==> Framed(input, kind)
    ensures body.Some? ==>
              var n := Number(input, 12, 8);
              && fresh(body.value) && body.value.Valid() && body.value.readBit == 0
              && body.value.Content() == Unpacked(input[HEADER..HEADER + Bytes(n)], n)
  {
    hide Packed, PackedByte, Unpacked, Number;
    var magic := ReadLittleEndian(input, 0, 4);
    if magic != Some(MAGIC) {
      return None;
    }
    var version := ReadLittleEndian(input, 4, 4);
    if version != Some(VERSION) {
      return None;
    }
    var found := ReadLittleEndian(input, 8, 4);
    if found != Some(kind) {
      return None;
    }
    var bits := ReadLittleEndian(input, 12, 8);
    if bits.None? || HEADER + Bytes(bits.value) > |input| {
      return None;
    }
    var buffer := new BitBuffer();
    var ok := buffer.AssignBytes(input[HEADER..HEADER + Bytes(bits.value)], bits.value);
    return Some(buffer);
  }

  lemma NumberAt(input: seq<Bits>, at: nat, n: nat, count: nat)
    requires AllBytes(input) && at + count <= |input| && n < Power(8 * count)
    requires input[at..at + count] == Packed(ToBits(n, 8 * count))
    ensures Number(input, at, count) == n
  {
    hide Packed;
    UnpackPacked(ToBits(n, 8 * count));
    FitsWidth(n, 8 * count);
  }

  lemma PackedSize(bits: Bits)
    ensures |Packed(bits)| == Bytes(|bits|) && AllBytes(Packed(bits))
  {
    hide PackedByte;
  }

  lemma HeaderParts(kind: nat, bits: nat)
    ensures var h := HeaderOf(kind, bits);
            && |h| == HEADER && AllBytes(h)
            && h[0..4] == Packed(ToBits(MAGIC, 32)) && h[4..8] == Packed(ToBits(VERSION, 32))
            && h[8..12] == Packed(ToBits(kind, 32)) && h[12..20] == Packed(ToBits(bits, 64))
  {
    hide Packed, ToBits;
    PackedSize(ToBits(MAGIC, 32));
    PackedSize(ToBits(VERSION, 32));
    PackedSize(ToBits(kind, 32));
    PackedSize(ToBits(bits, 64));
  }

  lemma PowersOfTwo()
    ensures Power(8) == 0x100 && Power(16) == 0x1_0000 && Power(32) == 0x1_0000_0000 &&
        Power(64) == 0x1_0000_0000_0000_0000
  {
    assert Power(4) == 16;
    PowerSum(4, 4);
    PowerSum(8, 8);
    PowerSum(16, 16);
    PowerSum(32, 32);
  }

  lemma WrittenIsFramed(kind: nat, content: Bits, rest: seq<Bits>)
    requires kind < Power(32) && |content| < Power(64) && AllBytes(rest)
    ensures AllBytes(HeaderOf(kind, |content|)) && AllBytes(Packed(content)) && |HeaderOf(kind, |content|)| == HEADER
    ensures var input := HeaderOf(kind, |content|) + Packed(content) + rest;
            && (forall k :: Framed(input, k) <==> k == kind) && Number(input, 12, 8) == |content|
            && input[HEADER..HEADER + Bytes(|content|)] == Packed(content)
  {
    hide Packed, ToBits, HeaderOf, Number, Power;
    HeaderParts(kind, |content|);
    PackedSize(content);
    PowersOfTwo();
    var h := HeaderOf(kind, |content|);
    var input := h + Packed(content) + rest;
    assert input[0..4] == h[0..4] && input[4..8] == h[4..8] && input[8..12] == h[8..12] && input[12..20] == h[12..20];
    NumberAt(input, 0, MAGIC, 4);
    NumberAt(input, 4, VERSION, 4);
    NumberAt(input, 8, kind, 4);
    NumberAt(input, 12, |content|, 8);
  }

  /** A framed body is read back equal, whatever follows it in the stream, and only as its own kind. */
  method FrameRoundTrip(kind: nat, body: BitBuffer, rest: seq<Bits>, expected: nat) returns (back: Option<BitBuffer>)
    requires body.Valid() && kind < Power(32) && body.bitSize < Power(64) && AllBytes(rest)
    ensures back.Some? <==> expected == kind
    ensures back.Some? ==> back.value.Valid() && back.value.Content() == body.Content() && back.value.readBit == 0
  {
    hide Packed, Unpacked, HeaderOf, Number, Power, Framed;
    var out := WriteFrame(kind, body);
    body.Layout();
    WrittenIsFramed(kind, body.Content(), rest);
    UnpackPacked(body.Content());
    back := ReadFrame(out + rest, expected);
  }

  /** A payload inside a body: the low 32 bits of its size, then its bits. */
  method WritePayload(body: BitBuffer, payload: BitBuffer)
    requires body.Valid() && payload.Valid() && body != payload
    modifies body`bytes, body`bitSize
    ensures body.Valid() && body.Content() == old(body.Content()) + ToBits(payload.bitSize, 32) + payload.Content()
  {
    hide Packed, PackedByte, Unpacked;
    LowBits(payload.bitSize, 64, 32);
    var _ := body.WriteUnsignedBits(ToBits(payload.bitSize, 64), 32);
    body.WriteBufferBits(payload);
  }

  method ReadPayload(body: BitBuffer) returns (payload: Option<BitBuffer>)
    requires body.Valid()
    modifies body`readBit
    ensures body.Valid() && body.Content() == old(body.Content())
    ensures payload.Some? ==>
              var start := old(body.readBit);
              && start + 32 <= body.bitSize
              && var n := Value(body.Content()[start..start + 32]);
                 && start + 32 + n <= body.bitSize && body.readBit == start + 32 + n
                 && fresh(payload.value) && payload.value.Valid() && payload.value.readBit == 0
                 && payload.value.Content() == body.Content()[start + 32..start + 32 + n]
    ensures payload.None? ==>
              var start := old(body.readBit);
              body.bitSize < start + 32 || body.bitSize < start + 32 + Value(body.Content()[start..start + 32])
  {
    hide Packed, PackedByte, Unpacked, Value;
    body.Layout();
    var size := body.ReadUnsignedBits(32);
    if size.None? {
      return None;
    }
    PaddedValue(body.Content()[old(body.readBit)..old(body.readBit) + 32], 32);
    payload := TakePayload(body, Value(size.value));
  }

  method TakePayload(body: BitBuffer, n: nat) returns (payload: Option<BitBuffer>)
    requires body.Valid()
    modifies body`readBit
    ensures body.Valid() && body.Content() == old(body.Content())
    ensures payload.Some? <==> old(body.readBit) + n <= body.bitSize
    ensures payload.Some? ==>
              && fresh(payload.value) && payload.value.Valid() && payload.value.readBit == 0 &&
                  body.readBit == old(body.readBit) + n
              && payload.value.Content() == body.Content()[old(body.readBit)..old(body.readBit) + n]
  {
    hide Packed, PackedByte, Unpacked;
    body.Layout();
    var out := new BitBuffer();
    var ok := body.ReadBufferBits(out, n);
    if !ok {
      return None;
    }
    out.ResetRead();
    return Some(out);
  }

  /** At any bit offset a nested payload is read back, its size reduced to 32 bits: unchanged
      exactly when it is shorter than 2^32 bits. */
  method PayloadRoundTrip(body: BitBuffer, payload: BitBuffer) returns (back: Option<BitBuffer>)
    requires body.Valid() && payload.Valid() && body != payload && body.readBit == body.bitSize
    modifies body
    ensures back.Some? && back.value.Valid()
    ensures payload.Valid() && payload.bitSize % Power(32) <= |payload.Content()|
    ensures back.value.Content() == payload.Content()[..payload.bitSize % Power(32)]
    ensures back.value.Content() == payload.Content() <==> payload.bitSize < Power(32)
  {
    hide Packed, PackedByte, Unpacked, Value, Power, ToBits;
    body.Layout();
    payload.Layout();
    ghost var before, sizeBits := body.Content(), ToBits(payload.bitSize, 32);
    WritePayload(body, payload);
    body.Layout();
    ValueOfBits(payload.bitSize, 32);
    Reduced(payload.bitSize, Power(32));
    assert body.Content()[|before|..|before| + 32] == sizeBits;
    back := ReadPayload(body);
    ghost var n := payload.bitSize % Power(32);
    assert body.Content()[|before| + 32..|before| + 32 + n] == payload.Content()[..n];
    assert n == payload.bitSize ==> payload.Content()[..n] == payload.Content();
  }

  lemma Reduced(n: nat, m: nat)
    requires m > 0
    ensures n % m <= n && (n % m == n <==> n < m)
  {
    if n < m { Remains(n, m, 0, n); }
    DivisionFacts(n, m);
  }

  lemma DivisionFacts(n: nat, m: nat)
    requires m > 0
    ensures n % m < m && n % m <= n
  {
    assert n == n / m * m + n % m;
    Scale(0, n / m, m);
  }
}
