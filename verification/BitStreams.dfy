/** Streams of values through a bit buffer: whatever was written, at whatever alignment, is read
    back by the matching reads. Framed bodies and nested payloads survive too. */
module BitStreams {
  import opened PoolModel
  import opened MachineWords
  import opened BitBufferModule

  datatype Item = Flag(b: bool) | Number(value: Bits, n: nat) | Blob(data: seq<Bits>) | Nested(bits: Bits)

  /** What a reader must be told to read an item back. */
  datatype Shape = FlagShape | NumberShape(n: nat) | BlobShape(n: nat) | NestedShape(n: nat)

  ghost predicate Writable(i: Item) {
    match i
    case Number(value, n) => IsWord(value) && n <= 64
    case Blob(data) => AllBytes(data)
    case _ => true
  }

  ghost predicate AllWritable(items: seq<Item>) { forall k :: 0 <= k < |items| ==> Writable(items[k]) }

  function ShapeOf(i: Item): Shape {
    match i
    case Flag(_) => FlagShape
    case Number(_, n) => NumberShape(n)
    case Blob(data) => BlobShape(|data|)
    case Nested(bits) => NestedShape(|bits|)
  }

  /** The bits an item occupies. */
  ghost function Encoded(i: Item): Bits
    requires Writable(i)
  {
    match i
    case Flag(b) => [b]
    case Number(value, n) => value[..n]
    case Blob(data) => Unpacked(data, 8 * |data|)
    case Nested(bits) => bits
  }

  ghost function EncodedAll(items: seq<Item>): Bits
    requires AllWritable(items)
  {
    if items == [] then [] else EncodedAll(items[..|items| - 1]) + Encoded(items[|items| - 1])
  }

  /** A number comes back with the bits that were not written cleared. */
  function Canonical(i: Item): Item {
    if i.Number? && i.n <= |i.value| && i.n <= 64 then Number(i.value[..i.n] + Zeros(64 - i.n), i.n) else i
  }

  method WriteItem(buffer: BitBuffer, item: Item)
    requires buffer.Valid() && Writable(item)
    modifies buffer`bytes, buffer`bitSize
    ensures buffer.Valid() && buffer.Content() == old(buffer.Content()) + Encoded(item)
  {
    hide Unpacked, Packed, PackedByte;
    match item
    case Flag(b) => buffer.WriteBool(b);
    case Number(value, n) => var _ := buffer.WriteUnsignedBits(value, n);
    case Blob(data) => buffer.WriteBytes(data);
    case Nested(bits) =>
      var source := FromBits(bits);
      buffer.WriteBufferBits(source);
  }

  method FromBits(bits: Bits) returns (buffer: BitBuffer)
    ensures fresh(buffer) && buffer.Valid() && buffer.Content() == bits
  {
    hide Unpacked, Packed, PackedByte;
    buffer := new BitBuffer();
    for k := 0 to |bits|
      invariant buffer.Valid() && buffer.Content() == bits[..k]
    {
      assert bits[..k + 1] == bits[..k] + [bits[k]];
      buffer.WriteBool(bits[k]);
    }
    assert bits[..|bits|] == bits;
  }

  method ReadItem(buffer: BitBuffer, shape: Shape, ghost item: Item) returns (r: Option<Item>)
    requires buffer.Valid() && Writable(item) && shape == ShapeOf(item)
    requires buffer.readBit + |Encoded(item)| <= buffer.bitSize
    requires buffer.Content()[buffer.readBit..buffer.readBit + |Encoded(item)|] == Encoded(item)
    modifies buffer`readBit
    ensures buffer.Valid() && r == Some(Canonical(item)) && buffer.readBit == old(buffer.readBit) + |Encoded(item)|
  {
    hide Unpacked, Packed, PackedByte;
    ghost var start, slice := buffer.readBit, buffer.Content()[buffer.readBit..buffer.readBit + |Encoded(item)|];
    buffer.Layout();
    match shape
    case FlagShape =>
      var b := buffer.ReadBool();
      assert slice[0] == b.value;
      r := Some(Flag(b.value));
    case NumberShape(n) =>
      assert |Encoded(item)| == n;
      var v := buffer.ReadUnsignedBits(n);
      r := Some(Number(v.value, n));
    case BlobShape(n) =>
      UnpackedLength(item.data);
      var d := buffer.ReadBytes(n);
      UnpackedIsInjective(d.value, item.data);
      r := Some(Blob(d.value));
    case NestedShape(n) =>
      var out := new BitBuffer();
      var ok := buffer.ReadBufferBits(out, n);
      assert out.Content() == slice;
      var bits := ToList(out);
      r := Some(Nested(bits));
  }

  lemma UnpackedLength(data: seq<Bits>)
    requires AllBytes(data)
    ensures |Unpacked(data, 8 * |data|)| == 8 * |data|
  {
  }

  lemma UnpackedIsInjective(a: seq<Bits>, b: seq<Bits>)
    requires AllBytes(a) && AllBytes(b) && |a| == |b| && Unpacked(a, 8 * |a|) == Unpacked(b, 8 * |b|)
    ensures a == b
  {
    hide Unpacked;
    PackUnpacked(a);
    PackUnpacked(b);
  }

  method ToList(buffer: BitBuffer) returns (bits: Bits)
    requires buffer.Valid()
    ensures bits == buffer.Content()
  {
    bits := seq(buffer.bitSize, k requires 0 <= k < buffer.bitSize &&
        buffer.Valid() reads buffer => BitAt(buffer.bytes, k));
  }

  method WriteAll(buffer: BitBuffer, items: seq<Item>)
    requires buffer.Valid() && AllWritable(items)
    modifies buffer`bytes, buffer`bitSize
    ensures buffer.Valid() && buffer.Content() == old(buffer.Content()) + EncodedAll(items)
  {
    hide Encoded, Writable, Unpacked, Packed, PackedByte;
    ghost var before := buffer.Content();
    assert before + [] == before;
    for k := 0 to |items|
      invariant buffer.Valid() && buffer.Content() == before + EncodedAll(items[..k])
    {
      WriteItem(buffer, items[k]);
      assert items[..k + 1][..k] == items[..k];
      assert before + EncodedAll(items[..k]) + Encoded(items[k]) == before + EncodedAll(items[..k + 1]);
    }
    assert items[..|items|] == items;
  }

  lemma {:induction false} EncodedPrefix(items: seq<Item>, k: nat)
    requires AllWritable(items) && k <= |items|
    ensures EncodedAll(items[..k]) <= EncodedAll(items)
    decreases |items|
  {
    hide Encoded, Writable;
    if k < |items| {
      var front := items[..|items| - 1];
      EncodedPrefix(front, k);
      assert front[..k] == items[..k];
    } else {
      assert items[..k] == items;
    }
  }

  method ReadAll(buffer: BitBuffer, shapes: seq<Shape>, ghost items: seq<Item>) returns (back: seq<Item>)
    requires buffer.Valid() && AllWritable(items) && |shapes| == |items|
    requires forall k :: 0 <= k < |items| ==> shapes[k] == ShapeOf(items[k])
    requires EncodedAll(items) <= buffer.Content()[buffer.readBit..]
    modifies buffer`readBit
    ensures buffer.Valid() && |back| == |items| && buffer.readBit == old(buffer.readBit) + |EncodedAll(items)|
    ensures forall k :: 0 <= k < |items| ==> back[k] == Canonical(items[k])
  {
    hide Encoded, Writable, Canonical, ShapeOf, Unpacked, Packed, PackedByte;
    ghost var start, content := buffer.readBit, buffer.Content();
    buffer.Layout();
    back := [];
    for n := 0 to |shapes|
      invariant buffer.Valid() && buffer.Content() == content && |back| == n
      invariant buffer.readBit == start + |EncodedAll(items[..n])|
      invariant forall k :: 0 <= k < n ==> back[k] == Canonical(items[k])
    {
      NextItem(content, start, items, n);
      var item := ReadItem(buffer, shapes[n], items[n]);
      back := back + [item.value];
    }
    assert items[..|items|] == items;
  }

  lemma NextItem(content: Bits, start: nat, items: seq<Item>, n: nat)
    requires AllWritable(items) && n < |items| && start <= |content| && EncodedAll(items) <= content[start..]
    ensures var at, size := start + |EncodedAll(items[..n])|, |Encoded(items[n])|;
            && at + size <= |content| && content[at..at + size] == Encoded(items[n])
            && start + |EncodedAll(items[..n + 1])| == at + size
  {
    hide Encoded, Writable;
    EncodedPrefix(items, n + 1);
    assert items[..n + 1][..n] == items[..n];
    var all, at, size := EncodedAll(items[..n + 1]), start + |EncodedAll(items[..n])|, |Encoded(items[n])|;
    assert all == EncodedAll(items[..n]) + Encoded(items[n]);
    assert all <= content[start..];
    forall k | 0 <= k < size
      ensures content[at + k] == Encoded(items[n])[k]
    {
      assert content[start..][at - start + k] == all[at - start + k];
    }
  }

  /** The item itself, or for a number its written bits with the others cleared. */
  ghost predicate ComesBack(item: Item, back: Item) {
    match item
    case Number(value, n) =>
      && back.Number? && back.n == n && |back.value| == 64 && n <= |value|
      && forall p :: 0 <= p < 64 ==> back.value[p] == (p < n && value[p])
    case _ => back == item
  }

  lemma CanonicalComesBack(item: Item)
    requires Writable(item)
    ensures ComesBack(item, Canonical(item))
  {
  }

  /** Write after anything, read from there: every item comes back. */
  method RoundTrip(buffer: BitBuffer, items: seq<Item>) returns (back: seq<Item>)
    requires buffer.Valid() && AllWritable(items) && buffer.readBit == buffer.bitSize
    modifies buffer
    ensures buffer.Valid() && |back| == |items| && buffer.readBit == buffer.bitSize
    ensures forall k :: 0 <= k < |items| ==> ComesBack(items[k], back[k])
  {
    hide Encoded, Writable, Canonical, ShapeOf, Unpacked, Packed, PackedByte, ComesBack;
    ghost var before := buffer.Content();
    buffer.Layout();
    WriteAll(buffer, items);
    buffer.Layout();
    assert buffer.Content()[|before|..] == EncodedAll(items);
    var shapes := seq(|items|, k requires 0 <= k < |items| => ShapeOf(items[k]));
    back := ReadAll(buffer, shapes, items);
    forall k | 0 <= k < |items| ensures ComesBack(items[k], back[k]) { CanonicalComesBack(items[k]); }
  }
}
