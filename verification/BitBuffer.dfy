/** The bit buffer: bytes, a bit count and a read position. Every write path, aligned or windowed,
    is proved against the plain bit sequence it stores. */
module BitBufferModule {
  import opened PoolModel
  import opened MachineWords

  function Bytes(n: nat): nat { (n + 7) / 8 }

  /** Byte j of the canonical layout: unused bits of the last byte are zero. */
  function PackedByte(bits: Bits, j: nat): (b: Bits)
    ensures IsByte(b)
  {
    seq(8, k requires 0 <= k < 8 => 8 * j + k < |bits| && bits[8 * j + k])
  }

  function Packed(bits: Bits): (r: seq<Bits>)
    ensures |r| == Bytes(|bits|)
  {
    seq(Bytes(|bits|), j requires 0 <= j < Bytes(|bits|) => PackedByte(bits, j))
  }

  ghost predicate AllBytes(bytes: seq<Bits>) { forall j :: 0 <= j < |bytes| ==> IsByte(bytes[j]) }

  /** The bit at position k. */
  function BitAt(bytes: seq<Bits>, k: nat): bool
    requires k < 8 * |bytes| && AllBytes(bytes)
  {
    bytes[k / 8][k % 8]
  }

  function Unpacked(bytes: seq<Bits>, n: nat): (r: Bits)
    requires n <= 8 * |bytes| && AllBytes(bytes)
    ensures |r| == n && forall k :: 0 <= k < n ==> r[k] == BitAt(bytes, k)
  {
    seq(n, k requires 0 <= k < n => BitAt(bytes, k))
  }

  /** Bit k is bit k % 8 of byte k / 8, the lowest bit first. */
  lemma UnpackPacked(bits: Bits)
    ensures AllBytes(Packed(bits)) && Unpacked(Packed(bits), |bits|) == bits
    ensures forall k :: 0 <= k < |bits| ==> Packed(bits)[k / 8][k % 8] == bits[k]
  {
    forall k | 0 <= k < |bits| ensures BitAt(Packed(bits), k) == bits[k] {
      assert Packed(bits)[k / 8] == PackedByte(bits, k / 8);
      assert 8 * (k / 8) + k % 8 == k;
    }
  }

  class BitBuffer {
    var bytes: seq<Bits>
    var bitSize: nat
    var readBit: nat

    ghost predicate Shaped()
      reads this
    {
      AllBytes(bytes) && bitSize <= 8 * |bytes| && readBit <= bitSize
    }

    /** The logical content. */
    ghost function Content(): Bits
      requires Shaped()
      reads this
    {
      Unpacked(bytes, bitSize)
    }

    /** Canonical: no spare bytes, unused tail bits zero. */
    ghost predicate Valid()
      reads this
    {
      Shaped() && bytes == Packed(Content())
    }

    constructor ()
      ensures Valid() && Content() == [] && readBit == 0
    {
      bytes, bitSize, readBit := [], 0, 0;
    }

    lemma Holds(bits: Bits)
      requires bytes == Packed(bits) && bitSize == |bits| && readBit <= bitSize
      ensures Valid() && Content() == bits
    {
      UnpackPacked(bits);
    }

    lemma Layout()
      requires Valid()
      ensures |Content()| == bitSize && |bytes| == Bytes(bitSize) && AllBytes(bytes)
      ensures forall j :: 0 <= j < |bytes| ==> bytes[j] == PackedByte(Content(), j)
    {
    }

    method WriteBool(value: bool)
      requires Valid()
      modifies `bytes, `bitSize
      ensures Valid() && Content() == old(Content()) + [value]
    {
      hide Unpacked, PackedByte;
      ghost var before := Content();
      Layout();
      PackOneMore(before, value);
      var at := bitSize / 8;
      if bitSize % 8 == 0 {
        bytes := bytes + [Zeros(8)];
      }
      var one := OneAt(bitSize % 8, 8);
      bytes := bytes[at := if value then Or(bytes[at], one) else And(bytes[at], Not(one))];
      bitSize := bitSize + 1;
      assert bytes == Packed(before + [value]);
      Holds(before + [value]);
    }

    /** Fails on more than 64 bits; otherwise appends exactly the low n bits. */
    method WriteUnsignedBits(value: Bits, n: nat) returns (ok: bool)
      requires Valid() && IsWord(value)
      modifies `bytes, `bitSize
      ensures Valid() && ok == (n <= 64)
      ensures Content() == if ok then old(Content()) + value[..n] else old(Content())
    {
      if n > 64 {
        return false;
      }
      if n == 0 {
        assert value[..0] == [];
        return true;
      }
      if bitSize % 8 == 0 && n % 8 == 0 {
        WriteWholeBytes(value, n);
      } else {
        WriteAcrossBytes(value, n);
      }
      return true;
    }

    method WriteWholeBytes(value: Bits, n: nat)
      requires Valid() && IsWord(value) && n <= 64 && bitSize % 8 == 0 && n % 8 == 0
      modifies `bytes, `bitSize
      ensures Valid() && Content() == old(Content()) + value[..n]
    {
      hide Unpacked, PackedByte, Packed, WordByte;
      ghost var before := Content();
      Layout();
      assert before + value[..0] == before;
      for k := 0 to n / 8
        invariant bytes == Packed(before + value[..8 * k]) && bitSize == old(bitSize)
      {
        WordBytes(value, k);
        PackWholeByte(before + value[..8 * k], WordByte(value, k));
        assert before + value[..8 * k] + WordByte(value, k) == before + value[..8 * (k + 1)];
        bytes := bytes + [LowByte(Shr(value, 8 * k))];
      }
      bitSize := bitSize + n;
      Holds(before + value[..n]);
    }

    /** The general path: every touched byte takes its masked share of the value. */
    method WriteAcrossBytes(value: Bits, n: nat)
      requires Valid() && IsWord(value) && 0 < n <= 64
      modifies `bytes, `bitSize
      ensures Valid() && Content() == old(Content()) + value[..n]
    {
      hide Unpacked, PackedByte, Packed, Share, ShareMask, Merged;
      ghost var before, after := Content(), Content() + value[..n];
      Layout();
      var shift, offset := bitSize % 8, bitSize / 8;
      var touched, newBytes := (shift + n + 7) / 8, (bitSize + n + 7) / 8;
      if |bytes| < newBytes {
        bytes := bytes + seq(newBytes - |bytes|, _ => Zeros(8));
      }
      PackedLengths(before, after);
      assert |bytes| == offset + touched && forall j :: 0 <= j < |bytes| ==> bytes[j] == PackedByte(before, j);
      for k := 0 to touched
        invariant |bytes| == offset + touched && bitSize == old(bitSize)
        invariant forall j :: 0 <= j < |bytes| ==>
            bytes[j] == PackedByte(if offset <= j < offset + k then after else before, j)
      {
        ShareIsPacked(before, value, n, k);
        var merged := Merged(bytes[offset + k], Share(value, 8 * k - shift), ShareMask(n, 8 * k - shift));
        bytes := bytes[offset + k := merged];
      }
      bitSize := bitSize + n;
      AppendedElsewhere(before, value[..n]);
      IsPacked(after, bytes);
      Holds(after);
    }

    method WriteBytes(data: seq<Bits>)
      requires Valid() && AllBytes(data)
      modifies `bytes, `bitSize
      ensures Valid() && Content() == old(Content()) + Unpacked(data, 8 * |data|)
    {
      hide Packed, PackedByte, Unpacked;
      if data == [] {
        return;
      }
      ghost var before := Content();
      if bitSize % 8 == 0 {
        PackUnpacked(data);
        PackConcat(before, Unpacked(data, 8 * |data|));
        bytes := bytes + data;
        bitSize := bitSize + 8 * |data|;
        Holds(before + Unpacked(data, 8 * |data|));
        return;
      }
      WriteByteByByte(data);
    }

    method WriteByteByByte(data: seq<Bits>)
      requires Valid() && AllBytes(data)
      modifies `bytes, `bitSize
      ensures Valid() && Content() == old(Content()) + Unpacked(data, 8 * |data|)
    {
      hide Packed, PackedByte, Unpacked;
      ghost var before := Content();
      assert before + Unpacked(data, 0) == before;
      for k := 0 to |data|
        invariant Valid() && Content() == before + Unpacked(data, 8 * k)
      {
        WidenedByte(data[k]);
        UnpackOneMore(data, k);
        var ok := WriteUnsignedBits(Widen(data[k]), 8);
        assert before + Unpacked(data, 8 * k) + data[k] == before + (Unpacked(data, 8 * k) + data[k]);
      }
    }

    method WriteBufferBits(source: BitBuffer)
      requires Valid() && source.Valid() && source != this
      modifies `bytes, `bitSize
      ensures Valid() && Content() == old(Content()) + source.Content()
    {
      hide Packed, PackedByte;
      if source.bitSize == 0 {
        return;
      }
      ghost var before := Content();
      if bitSize % 8 == 0 {
        PackConcat(before, source.Content());
        bytes := bytes + source.bytes;
        bitSize := bitSize + source.bitSize;
        Holds(before + source.Content());
        return;
      }
      for k := 0 to source.bitSize
        invariant Valid() && Content() == before + source.Content()[..k]
      {
        WriteBool(BitAt(source.bytes, k));
      }
      assert source.Content()[..source.bitSize] == source.Content();
    }

    /** Fails past the end; otherwise replaces exactly the addressed bits. */
    method OverwriteUnsignedBits(at: nat, value: Bits, n: nat) returns (ok: bool)
      requires Valid() && IsWord(value)
      modifies `bytes
      ensures Valid() && ok == (n <= 64 && at + n <= bitSize)
      ensures Content() == if ok then Spliced(old(Content()), at, value[..n]) else old(Content())
    {
      if n > 64 || at > bitSize || n > bitSize - at {
        return false;
      }
      if n == 0 {
        assert Spliced(Content(), at, value[..0]) == Content();
        return true;
      }
      var shift := at % 8;
      if shift == 0 && n % 8 == 0 {
        OverwriteWholeBytes(at, value, n);
      } else if (shift + n + 7) / 8 <= 8 {
        OverwriteWindow(at, value, n);
      } else {
        OverwriteBitByBit(at, value, n);
      }
      return true;
    }

    method OverwriteWholeBytes(at: nat, value: Bits, n: nat)
      requires Valid() && IsWord(value) && n <= 64 && at + n <= bitSize && at % 8 == 0 && n % 8 == 0
      modifies `bytes
      ensures Valid() && Content() == Spliced(old(Content()), at, value[..n])
    {
      hide Unpacked, PackedByte, Packed, WordByte, Spliced;
      ghost var before, after := Content(), Spliced(Content(), at, value[..n]);
      Layout();
      for k := 0 to n / 8
        invariant |bytes| == Bytes(bitSize)
        invariant forall j :: 0 <= j < |bytes| ==>
            bytes[j] == PackedByte(if at / 8 <= j < at / 8 + k then after else before, j)
      {
        WordBytes(value, k);
        WholeByteSpliced(before, at, value, n, k);
        bytes := bytes[at / 8 + k := LowByte(Shr(value, 8 * k))];
      }
      SplicedElsewhere(before, at, value[..n], at / 8, at / 8 + n / 8);
      IsPacked(after, bytes);
      Holds(after);
    }

    method OverwriteWindow(at: nat, value: Bits, n: nat)
      requires Valid() && IsWord(value) && 0 < n <= 64 && at + n <= bitSize && (at % 8 + n + 7) / 8 <= 8
      modifies `bytes
      ensures Valid() && Content() == Spliced(old(Content()), at, value[..n])
    {
      hide Unpacked, PackedByte, Packed, WordByte, Spliced, Patched;
      ghost var before, after := Content(), Spliced(Content(), at, value[..n]);
      Layout();
      var shift, offset := at % 8, at / 8;
      var touched := (shift + n + 7) / 8;
      var window := ReadWindow(bytes, offset, touched);
      WindowSpliced(before, at, value, n, window);
      window := Patched(window, value, n, shift);
      for k := 0 to touched
        invariant |bytes| == Bytes(bitSize)
        invariant forall j :: 0 <= j < |bytes| ==>
            bytes[j] == PackedByte(if offset <= j < offset + k then after else before, j)
      {
        WordBytes(window, k);
        bytes := bytes[offset + k := LowByte(Shr(window, 8 * k))];
      }
      SplicedElsewhere(before, at, value[..n], offset, offset + touched);
      IsPacked(after, bytes);
      Holds(after);
    }

    method OverwriteBitByBit(at: nat, value: Bits, n: nat)
      requires Valid() && IsWord(value) && n <= 64 && at + n <= bitSize
      modifies `bytes
      ensures Valid() && Content() == Spliced(old(Content()), at, value[..n])
    {
      hide Unpacked, PackedByte, Packed;
      ghost var before := Content();
      Layout();
      assert Spliced(before, at, value[..0]) == before;
      for k := 0 to n
        invariant bytes == Packed(Spliced(before, at, value[..k])) && |bytes| == Bytes(bitSize)
      {
        var target := at + k;
        var mask := OneAt(target % 8, 8);
        OneBitSpliced(before, at, value, k);
        PackedAt(Spliced(before, at, value[..k]), target / 8);
        bytes := bytes[target / 8 := if Shr(value, k)[0] then Or(bytes[target / 8], mask)
            else And(bytes[target / 8], Not(mask))];
      }
      Holds(Spliced(before, at, value[..n]));
    }

    method ReadBool() returns (r: Option<bool>)
      requires Valid()
      modifies `readBit
      ensures Valid() && r.Some? == (old(readBit) < bitSize)
      ensures r.Some? ==> r.value == Content()[old(readBit)] && readBit == old(readBit) + 1
      ensures r.None? ==> readBit == old(readBit)
    {
      if readBit >= bitSize {
        return None;
      }
      r := Some(BitAt(bytes, readBit));
      readBit := readBit + 1;
    }

    /** The next n bits as the low bits of a word; fails on more than 64 or past the end. */
    method ReadUnsignedBits(n: nat) returns (r: Option<Bits>)
      requires Valid()
      modifies `readBit
      ensures Valid() && r.Some? == (n <= 64 && n <= bitSize - old(readBit))
      ensures r.Some? ==>
          r.value == Content()[old(readBit)..old(readBit) + n] + Zeros(64 - n) && readBit == old(readBit) + n
      ensures r.None? ==> readBit == old(readBit)
    {
      hide Unpacked, PackedByte, Packed, WordByte, WindowValue, Bytes, AllBytes;
      if n > 64 {
        return None;
      }
      if n == 0 {
        assert Content()[readBit..readBit] + Zeros(64) == Zeros(64);
        return Some(Zeros(64));
      }
      if n > bitSize - readBit {
        return None;
      }
      var value;
      if readBit % 8 == 0 && n % 8 == 0 {
        value := ReadWholeBytes(n);
      } else {
        value := ReadThroughWindow(n);
      }
      readBit := readBit + n;
      return Some(value);
    }

    method ReadWholeBytes(n: nat) returns (value: Bits)
      requires Valid() && 0 < n <= 64 && n <= bitSize - readBit && readBit % 8 == 0 && n % 8 == 0
      ensures value == Content()[readBit..readBit + n] + Zeros(64 - n)
    {
      hide Unpacked, PackedByte, Packed, WordByte;
      Layout();
      value := ReadWindow(bytes, readBit / 8, n / 8);
      WholeBytesRead(Content(), readBit, n, value);
    }

    /** Up to eight bytes as a word, and a ninth where the shifted word runs out. */
    method ReadThroughWindow(n: nat) returns (value: Bits)
      requires Valid() && 0 < n <= 64 && n <= bitSize - readBit
      ensures value == Content()[readBit..readBit + n] + Zeros(64 - n)
    {
      hide Unpacked, PackedByte, Packed, WordByte, WindowValue;
      Layout();
      var shift, offset := readBit % 8, readBit / 8;
      var available := |bytes| - offset;
      var low := if available < 8 then available else 8;
      var window := ReadWindow(bytes, offset, low);
      NinthByte(readBit, bitSize, n);
      value := WindowValue(window, shift, n, if n > 64 - shift then bytes[offset + 8] else Zeros(8));
      WindowIsSlice(Content(), readBit, n, window, low);
    }

    method SkipBits(n: nat) returns (ok: bool)
      requires Valid()
      modifies `readBit
      ensures Valid() && ok == (n <= bitSize - old(readBit)) && readBit == old(readBit) + if ok then n else 0
    {
      ok := n <= bitSize - readBit;
      if ok {
        readBit := readBit + n;
      }
    }

    method ReadBytes(n: nat) returns (r: Option<seq<Bits>>)
      requires Valid()
      modifies `readBit
      ensures Valid() && r.Some? == (8 * n <= bitSize - old(readBit))
      ensures r.Some? ==> |r.value| == n && AllBytes(r.value) && readBit == old(readBit) + 8 * n
      ensures r.Some? ==> Unpacked(r.value, 8 * n) == Content()[old(readBit)..old(readBit) + 8 * n]
      ensures r.None? ==> readBit == old(readBit)
    {
      hide Unpacked, PackedByte, Packed;
      if n == 0 {
        UnpackedNothing();
        return Some([]);
      }
      if 8 * n > bitSize - readBit {
        return None;
      }
      Layout();
      if readBit % 8 == 0 {
        SliceOfBytes(Content(), bytes, readBit, n);
        r := Some(bytes[readBit / 8..readBit / 8 + n]);
        readBit := readBit + 8 * n;
        return;
      }
      var data := ReadByteByByte(n);
      return Some(data);
    }

    method ReadByteByByte(n: nat) returns (data: seq<Bits>)
      requires Valid() && 8 * n <= bitSize - readBit
      modifies `readBit
      ensures Valid() && readBit == old(readBit) + 8 * n && |data| == n && AllBytes(data)
      ensures Unpacked(data, 8 * n) == Content()[old(readBit)..old(readBit) + 8 * n]
    {
      hide Unpacked, PackedByte, Packed, AllBytes, LowByte;
      Layout();
      ghost var start, all := readBit, Content();
      data := [];
      UnpackedNothing();
      for k := 0 to n
        invariant Valid() && Content() == all && readBit == start + 8 * k && |data| == k && AllBytes(data)
        invariant Unpacked(data, 8 * k) == all[start..start + 8 * k]
      {
        var word := ReadUnsignedBits(8);
        LowOfPadded(all[start + 8 * k..start + 8 * k + 8]);
        UnpackPush(data, LowByte(word.value));
        SliceGrows(all, start, 8 * k, 8);
        data := data + [LowByte(word.value)];
      }
    }

    /** Move the next n bits to the end of another buffer. */
    method ReadBufferBits(out: BitBuffer, n: nat) returns (ok: bool)
      requires Valid() && out.Valid() && out != this
      modifies `readBit, out`bytes, out`bitSize
      ensures Valid() && out.Valid() && ok == (n <= bitSize - old(readBit)) && readBit == old(readBit) + if ok then n
          else 0
      ensures out.Content() == if ok then old(out.Content()) + Content()[old(readBit)..old(readBit) + n]
          else old(out.Content())
    {
      hide Unpacked, PackedByte, Packed;
      if n > bitSize - readBit {
        return false;
      }
      if n == 0 {
        return true;
      }
      if readBit % 8 == 0 && out.bitSize % 8 == 0 && n % 8 == 0 {
        Layout();
        SliceOfBytes(Content(), bytes, readBit, n / 8);
        out.WriteBytes(bytes[readBit / 8..readBit / 8 + n / 8]);
        readBit := readBit + n;
        return true;
      }
      CopyBits(out, n);
      return true;
    }

    method CopyBits(out: BitBuffer, n: nat)
      requires Valid() && out.Valid() && out != this && n <= bitSize - readBit
      modifies `readBit, out`bytes, out`bitSize
      ensures Valid() && out.Valid() && readBit == old(readBit) + n
      ensures out.Content() == old(out.Content()) + Content()[old(readBit)..old(readBit) + n]
    {
      hide Unpacked, PackedByte, Packed, AllBytes;
      ghost var start, before, all := readBit, out.Content(), Content();
      Layout();
      for k := 0 to n
        invariant Valid() && out.Valid() && readBit == start + k && Content() == all
        invariant out.Content() == before + all[start..start + k]
      {
        var bit := ReadBool();
        out.WriteBool(bit.value);
        assert all[start..start + k + 1] == all[start..start + k] + [all[start + k]];
      }
    }

    method ResetRead()
      requires Valid()
      modifies `readBit
      ensures Valid() && readBit == 0
    {
      readBit := 0;
    }

    method Clear()
      modifies this
      ensures Valid() && Content() == [] && readBit == 0
    {
      bytes, bitSize, readBit := [], 0, 0;
    }

    /** Keep a prefix; the read position is pulled back if it lies beyond. */
    method TruncateBits(n: nat) returns (ok: bool)
      requires Valid()
      modifies this
      ensures Valid() && ok == (n <= old(bitSize))
      ensures Content() == if ok then old(Content())[..n] else old(Content())
      ensures readBit == if ok && old(readBit) > n then n else old(readBit)
    {
      hide Unpacked, PackedByte, Packed, TailCleared;
      if n > bitSize {
        return false;
      }
      ghost var before := Content();
      Layout();
      bitSize := n;
      bytes := bytes[..Bytes(n)];
      if readBit > bitSize {
        readBit := bitSize;
      }
      TailIsPacked(before, n, bytes);
      bytes := TailCleared(bytes, n);
      Holds(before[..n]);
      return true;
    }

    /** Take foreign bytes. The content is always their first n bits; the buffer is canonical
        exactly when no byte beyond those needed was handed over. */
    method AssignBytes(data: seq<Bits>, n: nat) returns (ok: bool)
      requires Valid() && AllBytes(data)
      modifies this
      ensures ok == (n <= 8 * |data|)
      ensures !ok ==> Valid() && Content() == old(Content()) && readBit == old(readBit)
      ensures ok ==> Shaped() && Content() == Unpacked(data, n) && readBit == 0
      ensures ok ==> (Valid() <==> |data| == Bytes(n))
    {
      hide Packed, PackedByte, TailCleared;
      if n > 8 * |data| {
        return false;
      }
      bytes, bitSize, readBit := TailCleared(data, n), n, 0;
      TailKeepsContent(data, n);
      if |data| == Bytes(n) { AssignedIsPacked(data, n); }
      return true;
    }

    /** The field-by-field comparison decides equality of the logical contents. */
    method Equals(other: BitBuffer) returns (equal: bool)
      requires Valid() && other.Valid()
      ensures equal <==> Content() == other.Content()
    {
      hide PackedByte, Packed;
      return bitSize == other.bitSize && bytes == other.bytes;
    }
  }

  lemma PackedAt(bits: Bits, j: nat)
    requires j < Bytes(|bits|)
    ensures |Packed(bits)| == Bytes(|bits|) && Packed(bits)[j] == PackedByte(bits, j) && IsByte(Packed(bits)[j])
  {
  }

  lemma IsPacked(bits: Bits, bytes: seq<Bits>)
    requires |bytes| == Bytes(|bits|) && forall j :: 0 <= j < |bytes| ==> bytes[j] == PackedByte(bits, j)
    ensures bytes == Packed(bits)
  {
    hide PackedByte;
  }

  /** Two sequences that agree on byte j have the same byte there. */
  lemma SameByte(a: Bits, b: Bits, j: nat)
    requires forall k :: 8 * j <= k < 8 * j + 8 ==> (k < |a| && a[k]) == (k < |b| && b[k])
    ensures PackedByte(a, j) == PackedByte(b, j)
  {
    forall k | 0 <= k < 8 ensures PackedByte(a, j)[k] == PackedByte(b, j)[k] { }
  }

  /** One bit more: a new byte when the last one is full, else one bit of it set or cleared. */
  lemma PackOneMore(bits: Bits, value: bool)
    ensures var at, more := |bits| / 8, Packed(bits + [value]);
            var room := if |bits| % 8 == 0 then Packed(bits) + [Zeros(8)] else Packed(bits);
            && at < |room| && IsByte(room[at]) && |more| == |room|
            && more == room[at := if value then Or(room[at], OneAt(|bits| % 8, 8))
                else And(room[at], Not(OneAt(|bits| % 8, 8)))]
  {
    var at, more := |bits| / 8, Packed(bits + [value]);
    var room := if |bits| % 8 == 0 then Packed(bits) + [Zeros(8)] else Packed(bits);
    assert room[at] == PackedByte(bits, at) by { LastByte(bits); }
    OneMoreByte(bits, value);
    RoomElsewhere(bits, value);
    var fixed := if value then Or(room[at], OneAt(|bits| % 8, 8)) else And(room[at], Not(OneAt(|bits| % 8, 8)));
    forall j | 0 <= j < |more| ensures more[j] == room[at := fixed][j] { }
  }

  lemma LastByte(bits: Bits)
    ensures |bits| % 8 == 0 ==> PackedByte(bits, |bits| / 8) == Zeros(8)
  {
  }

  lemma RoomElsewhere(bits: Bits, value: bool)
    ensures forall j :: 0 <= j < |bits| / 8 ==> PackedByte(bits + [value], j) == PackedByte(bits, j)
  {
    forall j | 0 <= j < |bits| / 8
      ensures PackedByte(bits + [value], j) == PackedByte(bits, j)
    {
      SameByte(bits + [value], bits, j);
    }
  }

  lemma OneMoreByte(bits: Bits, value: bool)
    ensures var at, one := |bits| / 8, OneAt(|bits| % 8, 8);
            PackedByte(bits + [value], at) == if value then Or(PackedByte(bits, at), one)
                else And(PackedByte(bits, at), Not(one))
  {
    var at, one := |bits| / 8, OneAt(|bits| % 8, 8);
    var fixed := if value then Or(PackedByte(bits, at), one) else And(PackedByte(bits, at), Not(one));
    forall k | 0 <= k < 8 ensures PackedByte(bits + [value], at)[k] == fixed[k] {
      assert 8 * at + k == |bits| <==> k == |bits| % 8;
    }
  }

  /** Byte k of a word. */
  function WordByte(w: Bits, k: nat): (b: Bits)
    requires IsWord(w) && k < 8
    ensures IsByte(b)
  {
    w[8 * k..8 * k + 8]
  }

  lemma WordBytes(w: Bits, k: nat)
    requires IsWord(w) && k < 8
    ensures LowByte(Shr(w, 8 * k)) == WordByte(w, k)
    ensures w[..8 * k] + WordByte(w, k) == w[..8 * (k + 1)]
  {
  }

  lemma WidenedByte(b: Bits)
    requires IsByte(b)
    ensures Widen(b)[..8] == b
  {
  }

  lemma WholeBytes(a: nat, b: nat)
    requires a % 8 == 0
    ensures Bytes(a + b) == a / 8 + Bytes(b) && Bytes(a) == a / 8
  {
  }

  lemma ConcatByte(a: Bits, b: Bits, j: nat)
    requires |a| % 8 == 0
    ensures PackedByte(a + b, j) == if j < |a| / 8 then PackedByte(a, j) else PackedByte(b, j - |a| / 8)
  {
    var right := if j < |a| / 8 then PackedByte(a, j) else PackedByte(b, j - |a| / 8);
    forall k | 0 <= k < 8 ensures PackedByte(a + b, j)[k] == right[k] { }
  }

  /** After a whole number of bytes, layouts are concatenated. */
  lemma PackConcat(a: Bits, b: Bits)
    requires |a| % 8 == 0
    ensures Packed(a + b) == Packed(a) + Packed(b)
  {
    hide PackedByte;
    WholeBytes(|a|, |b|);
    forall j | 0 <= j < |Packed(a + b)| ensures Packed(a + b)[j] == (Packed(a) + Packed(b))[j] { ConcatByte(a, b, j); }
  }

  lemma PackWholeByte(bits: Bits, b: Bits)
    requires |bits| % 8 == 0 && IsByte(b)
    ensures Packed(bits + b) == Packed(bits) + [b]
  {
    hide Packed;
    PackConcat(bits, b);
    OneByte(b);
  }

  lemma OneByte(b: Bits)
    requires IsByte(b)
    ensures Packed(b) == [b]
  {
    assert PackedByte(b, 0) == b;
  }

  lemma PackUnpacked(data: seq<Bits>)
    requires AllBytes(data)
    ensures Packed(Unpacked(data, 8 * |data|)) == data
  {
    hide PackedByte, Unpacked;
    forall j | 0 <= j < |data| ensures PackedByte(Unpacked(data, 8 * |data|), j) == data[j] { ByteOfUnpacked(data, j); }
  }

  lemma ByteOfUnpacked(data: seq<Bits>, j: nat)
    requires AllBytes(data) && j < |data|
    ensures PackedByte(Unpacked(data, 8 * |data|), j) == data[j]
  {
    forall k | 0 <= k < 8 ensures PackedByte(Unpacked(data, 8 * |data|), j)[k] == data[j][k] {
      assert (8 * j + k) / 8 == j && (8 * j + k) % 8 == k;
    }
  }

  lemma PackedLengths(before: Bits, after: Bits)
    requires |before| < |after|
    ensures Bytes(|before|) <= Bytes(|after|) == |before| / 8 + (|before| % 8 + (|after| - |before|) + 7) / 8
    ensures forall j :: Bytes(|before|) <= j < Bytes(|after|) ==> PackedByte(before, j) == Zeros(8)
  {
    forall j | Bytes(|before|) <= j < Bytes(|after|) ensures PackedByte(before, j) == Zeros(8) { BeyondEnd(before, j); }
  }

  lemma BeyondEnd(bits: Bits, j: nat)
    requires Bytes(|bits|) <= j
    ensures PackedByte(bits, j) == Zeros(8)
  {
  }

  lemma AppendedElsewhere(before: Bits, part: Bits)
    ensures forall j :: 0 <= j < |before| / 8 ==> PackedByte(before + part, j) == PackedByte(before, j)
  {
    forall j | 0 <= j < |before| / 8
      ensures PackedByte(before + part, j) == PackedByte(before, j)
    {
      SameByte(before + part, before, j);
    }
  }

  /** The byte of the value that starts at source bit `from`, which may be negative. */
  function Share(value: Bits, from: int): (r: Bits)
    requires IsWord(value) && -8 < from
    ensures IsByte(r)
  {
    if from >= 0 then (if from < 64 then LowByte(Shr(value, from)) else Zeros(8)) else LowByte(Shl(value, -from))
  }

  function ShareMask(n: nat, from: int): (r: Bits)
    ensures IsByte(r)
  {
    seq(8, bit requires 0 <= bit < 8 => 0 <= from + bit < n)
  }

  function Merged(target: Bits, bits: Bits, mask: Bits): Bits
    requires IsByte(target) && IsByte(bits) && IsByte(mask)
  {
    Or(And(target, Not(mask)), And(bits, mask))
  }

  lemma ShareIsPacked(before: Bits, value: Bits, n: nat, k: nat)
    requires IsWord(value) && n <= 64
    ensures var j, from := |before| / 8 + k, 8 * k - |before| % 8;
            PackedByte(before + value[..n], j) == Merged(PackedByte(before, j), Share(value, from), ShareMask(n, from))
  {
    var j, from := |before| / 8 + k, 8 * k - |before| % 8;
    var after := before + value[..n];
    forall b | 0 <= b < 8
      ensures PackedByte(after, j)[b] == Merged(PackedByte(before, j), Share(value, from), ShareMask(n, from))[b]
    {
      assert 8 * j + b - |before| == from + b;
    }
  }

  lemma UnpackOneMore(data: seq<Bits>, k: nat)
    requires k < |data| && AllBytes(data)
    ensures Unpacked(data, 8 * (k + 1)) == Unpacked(data, 8 * k) + data[k]
  {
    forall i | 0 <= i < 8 * (k + 1) ensures Unpacked(data, 8 * (k + 1))[i] == (Unpacked(data, 8 * k) + data[k])[i] {
      if i >= 8 * k { assert i / 8 == k && i % 8 == i - 8 * k; }
    }
  }

  /** `part` written over `bits` at position `at`. */
  function Spliced(bits: Bits, at: nat, part: Bits): (r: Bits)
    requires at + |part| <= |bits|
    ensures |r| == |bits| && forall k :: 0 <= k < |bits| ==>
        r[k] == if at <= k < at + |part| then part[k - at] else bits[k]
  {
    bits[..at] + part + bits[at + |part|..]
  }

  lemma SplicedElsewhere(bits: Bits, at: nat, part: Bits, from: nat, to: nat)
    requires at + |part| <= |bits| && 8 * from <= at && at + |part| <= 8 * to
    ensures forall j :: 0 <= j && (j < from || to <= j) ==>
        PackedByte(Spliced(bits, at, part), j) == PackedByte(bits, j)
  {
    forall j | 0 <= j && (j < from || to <= j) ensures PackedByte(Spliced(bits, at, part), j) == PackedByte(bits, j) {
      SameByte(Spliced(bits, at, part), bits, j);
    }
  }

  lemma WholeByteSpliced(bits: Bits, at: nat, value: Bits, n: nat, k: nat)
    requires IsWord(value) && n <= 64 && at + n <= |bits| && at % 8 == 0 && 8 * k + 8 <= n
    ensures PackedByte(Spliced(bits, at, value[..n]), at / 8 + k) == WordByte(value, k)
  {
    var after := Spliced(bits, at, value[..n]);
    forall b | 0 <= b < 8 ensures PackedByte(after, at / 8 + k)[b] == WordByte(value, k)[b] {
      assert 8 * (at / 8 + k) + b == at + (8 * k + b);
    }
  }

  /** The touched bytes gathered into one word. */
  method ReadWindow(bytes: seq<Bits>, offset: nat, count: nat) returns (window: Bits)
    requires AllBytes(bytes) && offset + count <= |bytes| && count <= 8
    ensures IsWord(window)
    ensures forall j :: 0 <= j < 8 ==> WordByte(window, j) == if j < count then bytes[offset + j] else Zeros(8)
  {
    hide WordByte;
    window := Zeros(64);
    forall j | 0 <= j < 8 ensures WordByte(window, j) == Zeros(8) { ZeroByte(j); }
    for k := 0 to count
      invariant IsWord(window)
      invariant forall j :: 0 <= j < 8 ==> WordByte(window, j) == if j < k then bytes[offset + j] else Zeros(8)
    {
      var next := Or(window, Shl(Widen(bytes[offset + k]), 8 * k));
      forall j | 0 <= j < 8 ensures WordByte(next, j) == if j == k then bytes[offset + k] else WordByte(window, j) {
        AddByte(window, bytes[offset + k], k, j);
      }
      window := next;
    }
  }

  lemma ZeroByte(j: nat)
    requires j < 8
    ensures WordByte(Zeros(64), j) == Zeros(8)
  {
  }

  lemma AddByte(window: Bits, b: Bits, k: nat, j: nat)
    requires IsWord(window) && IsByte(b) && k < 8 && j < 8 && WordByte(window, k) == Zeros(8)
    ensures WordByte(Or(window, Shl(Widen(b), 8 * k)), j) == if j == k then b else WordByte(window, j)
  {
    var left, right := WordByte(Or(window, Shl(Widen(b), 8 * k)), j), if j == k then b else WordByte(window, j);
    forall i | 0 <= i < 8 ensures left[i] == right[i] {
      assert j == k ==> window[8 * k + i] == WordByte(window, k)[i];
    }
  }

  /** The window with n bits of the value masked in at `shift`. */
  function Patched(window: Bits, value: Bits, n: nat, shift: nat): (r: Bits)
    requires IsWord(window) && IsWord(value) && 0 < n <= 64 && shift + n <= 64
    ensures IsWord(r) && forall p :: 0 <= p < 64 ==>
        r[p] == if shift <= p < shift + n then value[p - shift] else window[p]
  {
    var valueMask := if n == 64 then Not(Zeros(64)) else LowMask(n, 64);
    var mask := Shl(valueMask, shift);
    Or(And(window, Not(mask)), Shl(And(value, valueMask), shift))
  }

  lemma WindowSpliced(bits: Bits, at: nat, value: Bits, n: nat, window: Bits)
    requires IsWord(value) && IsWord(window) && 0 < n <= 64 && at + n <= |bits| && (at % 8 + n + 7) / 8 <= 8
    requires forall j :: 0 <= j < (at % 8 + n + 7) / 8 ==> WordByte(window, j) == PackedByte(bits, at / 8 + j)
    ensures at % 8 + n <= 64
    ensures forall j :: 0 <= j < (at % 8 + n + 7) / 8 ==>
              WordByte(Patched(window, value, n, at % 8), j) == PackedByte(Spliced(bits, at, value[..n]), at / 8 + j)
  {
    forall j | 0 <= j < (at % 8 + n + 7) / 8
      ensures WordByte(Patched(window, value, n, at % 8), j) == PackedByte(Spliced(bits, at, value[..n]), at / 8 + j)
    {
      PatchedByte(bits, at, value, n, window, j);
    }
  }

  lemma PatchedByte(bits: Bits, at: nat, value: Bits, n: nat, window: Bits, j: nat)
    requires IsWord(value) && IsWord(window) && 0 < n <= 64 && at + n <= |bits| && at % 8 + n <= 64 &&
        8 * j < at % 8 + n
    requires WordByte(window, j) == PackedByte(bits, at / 8 + j)
    ensures WordByte(Patched(window, value, n, at % 8), j) == PackedByte(Spliced(bits, at, value[..n]), at / 8 + j)
  {
    var left, right := WordByte(Patched(window, value, n, at % 8), j),
        PackedByte(Spliced(bits, at, value[..n]), at / 8 + j);
    forall b | 0 <= b < 8 ensures left[b] == right[b] {
      assert window[8 * j + b] == WordByte(window, j)[b] == PackedByte(bits, at / 8 + j)[b];
      assert 8 * (at / 8 + j) + b == at - at % 8 + (8 * j + b);
    }
  }

  lemma OneBitSpliced(bits: Bits, at: nat, value: Bits, k: nat)
    requires IsWord(value) && k < 64 && at + k < |bits|
    ensures var target, before, after := at + k, Spliced(bits, at, value[..k]), Spliced(bits, at, value[..k + 1]);
            var j := target / 8;
            && j < Bytes(|bits|)
            && Packed(after) == Packed(before)[j := if value[k] then Or(PackedByte(before, j), OneAt(target % 8, 8))
                                                    else And(PackedByte(before, j), Not(OneAt(target % 8, 8)))]
  {
    var target, before, after := at + k, Spliced(bits, at, value[..k]), Spliced(bits, at, value[..k + 1]);
    var j := target / 8;
    forall i | 0 <= i < Bytes(|bits|) && i != j
      ensures Packed(after)[i] == Packed(before)[i]
    {
      SameByte(after, before, i);
    }
    var fixed := if value[k] then Or(PackedByte(before, j), OneAt(target % 8, 8))
        else And(PackedByte(before, j), Not(OneAt(target % 8, 8)));
    forall b | 0 <= b < 8 ensures PackedByte(after, j)[b] == fixed[b] {
      assert 8 * j + b == target <==> b == target % 8;
    }
    assert Packed(after)[j] == fixed;
  }

  lemma WholeBytesRead(bits: Bits, at: nat, n: nat, word: Bits)
    requires 0 < n <= 64 && at + n <= |bits| && at % 8 == 0 && n % 8 == 0 && IsWord(word)
    requires forall j :: 0 <= j < 8 ==>
        WordByte(word, j) == if j < n / 8 then PackedByte(bits, at / 8 + j) else Zeros(8)
    ensures word == bits[at..at + n] + Zeros(64 - n)
  {
    hide WordByte, PackedByte;
    forall p | 0 <= p < 64 ensures word[p] == (bits[at..at + n] + Zeros(64 - n))[p] { WholeBit(bits, at, n, word, p); }
  }

  lemma WholeBit(bits: Bits, at: nat, n: nat, word: Bits, p: nat)
    requires 0 < n <= 64 && at + n <= |bits| && at % 8 == 0 && n % 8 == 0 && IsWord(word) && p < 64
    requires WordByte(word, p / 8) == if p / 8 < n / 8 then PackedByte(bits, at / 8 + p / 8) else Zeros(8)
    ensures word[p] == (p < n && bits[at + p])
  {
    assert word[p] == WordByte(word, p / 8)[p % 8];
    if p < n { BitOfByte(bits, at, p); }
  }

  /** What the reader makes of its 64-bit window and, if the value crosses it, a ninth byte. */
  function WindowValue(window: Bits, shift: nat, n: nat, ninth: Bits): (r: Bits)
    requires IsWord(window) && shift < 8 && 0 < n <= 64 && IsByte(ninth)
    ensures IsWord(r)
  {
    var shifted := Shr(window, shift);
    var whole := if n > 64 - shift then Or(shifted, Shl(Widen(ninth), 64 - shift)) else shifted;
    if n < 64 then And(whole, LowMask(n, 64)) else whole
  }

  /** The bytes the reader looks at exist. */
  lemma NinthByte(at: nat, size: nat, n: nat)
    requires at + n <= size && 0 < n
    ensures at / 8 < Bytes(size)
    ensures n > 64 - at % 8 ==> at / 8 + 8 < Bytes(size)
    ensures forall p :: at % 8 <= p < at % 8 + n ==> at / 8 + p / 8 < Bytes(size)
  {
  }

  lemma WindowIsSlice(bits: Bits, at: nat, n: nat, window: Bits, low: nat)
    requires 0 < n <= 64 && at + n <= |bits| && IsWord(window)
    requires low == if Bytes(|bits|) - at / 8 < 8 then Bytes(|bits|) - at / 8 else 8
    requires forall j :: 0 <= j < 8 ==>
        WordByte(window, j) == if j < low then PackedByte(bits, at / 8 + j) else Zeros(8)
    ensures var ninth := if n > 64 - at % 8 then PackedByte(bits, at / 8 + 8) else Zeros(8);
            WindowValue(window, at % 8, n, ninth) == bits[at..at + n] + Zeros(64 - n)
  {
    var shift, ninth := at % 8, if n > 64 - at % 8 then PackedByte(bits, at / 8 + 8) else Zeros(8);
    var value := WindowValue(window, shift, n, ninth);
    forall p | 0 <= p < 64 ensures value[p] == (bits[at..at + n] + Zeros(64 - n))[p] {
      if p < n { SliceBit(bits, at, n, window, low, p); }
    }
  }

  lemma SliceBit(bits: Bits, at: nat, n: nat, window: Bits, low: nat, p: nat)
    requires p < n <= 64 && at + n <= |bits| && IsWord(window)
    requires low == if Bytes(|bits|) - at / 8 < 8 then Bytes(|bits|) - at / 8 else 8
    requires forall j :: 0 <= j < 8 ==>
        WordByte(window, j) == if j < low then PackedByte(bits, at / 8 + j) else Zeros(8)
    ensures var ninth := if n > 64 - at % 8 then PackedByte(bits, at / 8 + 8) else Zeros(8);
            WindowValue(window, at % 8, n, ninth)[p] == bits[at + p]
  {
    hide WordByte, PackedByte, WindowValue;
    var q := at % 8 + p;
    BitInByte(bits, at, p);
    WindowValueAt(window, at % 8, n, if n > 64 - at % 8 then PackedByte(bits, at / 8 + 8) else Zeros(8), p);
    if q < 64 {
      WordBit(window, q);
      assert q / 8 < low;
    }
  }

  lemma WindowValueAt(window: Bits, shift: nat, n: nat, ninth: Bits, p: nat)
    requires IsWord(window) && shift < 8 && p < n <= 64 && IsByte(ninth) && (n <= 64 - shift ==> ninth == Zeros(8))
    ensures WindowValue(window, shift, n, ninth)[p] == if shift + p < 64 then window[shift + p]
        else ninth[shift + p - 64]
  {
    var shifted, high := Shr(window, shift), Shl(Widen(ninth), 64 - shift);
    assert shifted[p] == (p + shift < 64 && window[p + shift]);
    if shift + p >= 64 {
      assert high[p] == Widen(ninth)[p - (64 - shift)] == ninth[shift + p - 64];
      assert Or(shifted, high)[p] == high[p];
    } else {
      assert !high[p] && Or(shifted, high)[p] == shifted[p];
    }
  }

  lemma BitInByte(bits: Bits, at: nat, p: nat)
    requires at + p < |bits|
    ensures PackedByte(bits, at / 8 + (at % 8 + p) / 8)[(at % 8 + p) % 8] == bits[at + p]
  {
    var q := at % 8 + p;
    assert 8 * (at / 8 + q / 8) + q % 8 == at + p;
  }

  lemma WordBit(window: Bits, q: nat)
    requires IsWord(window) && q < 64
    ensures window[q] == WordByte(window, q / 8)[q % 8]
  {
  }

  lemma LowOfPadded(b: Bits)
    requires IsByte(b)
    ensures LowByte(b + Zeros(56)) == b
  {
  }

  lemma SliceGrows(bits: Bits, start: nat, a: nat, b: nat)
    requires start + a + b <= |bits|
    ensures bits[start..start + a] + bits[start + a..start + a + b] == bits[start..start + (a + b)]
  {
  }

  lemma UnpackedNothing()
    ensures AllBytes([]) && Unpacked([], 0) == []
  {
  }

  lemma UnpackPush(data: seq<Bits>, b: Bits)
    requires AllBytes(data) && IsByte(b)
    ensures AllBytes(data + [b]) && Unpacked(data + [b], 8 * (|data| + 1)) == Unpacked(data, 8 * |data|) + b
  {
    forall i | 0 <= i < 8 * (|data| + 1)
      ensures Unpacked(data + [b], 8 * (|data| + 1))[i] == (Unpacked(data, 8 * |data|) + b)[i]
    {
      if i >= 8 * |data| { assert i / 8 == |data| && i % 8 == i - 8 * |data|; }
    }
  }

  lemma SliceOfBytes(bits: Bits, bytes: seq<Bits>, at: nat, n: nat)
    requires at % 8 == 0 && at + 8 * n <= |bits| && |bytes| == Bytes(|bits|)
    requires forall j :: 0 <= j < |bytes| ==> bytes[j] == PackedByte(bits, j)
    ensures at / 8 + n <= |bytes| && AllBytes(bytes[at / 8..at / 8 + n])
    ensures Unpacked(bytes[at / 8..at / 8 + n], 8 * n) == bits[at..at + 8 * n]
  {
    var part := bytes[at / 8..at / 8 + n];
    forall i | 0 <= i < 8 * n ensures Unpacked(part, 8 * n)[i] == bits[at..at + 8 * n][i] {
      assert part[i / 8] == bytes[at / 8 + i / 8];
      BitOfByte(bits, at, i);
    }
  }

  lemma BitOfByte(bits: Bits, at: nat, i: nat)
    requires at % 8 == 0 && at + i < |bits|
    ensures PackedByte(bits, at / 8 + i / 8)[i % 8] == bits[at + i]
  {
    assert 8 * (at / 8 + i / 8) + i % 8 == at + i;
  }

  /** Clear the bits of the last byte that a size of n does not use. It is the last byte of the
      vector, not the byte that holds bit n - 1. */
  function TailCleared(bytes: seq<Bits>, n: nat): (r: seq<Bits>)
    requires AllBytes(bytes)
    ensures |r| == |bytes| && AllBytes(r)
  {
    if n % 8 == 0 || bytes == [] then bytes
    else bytes[|bytes| - 1 := And(bytes[|bytes| - 1], LowMask(n % 8, 8))]
  }

  lemma TailIsPacked(bits: Bits, n: nat, bytes: seq<Bits>)
    requires n <= |bits| && |bytes| == Bytes(n) && forall j :: 0 <= j < |bytes| ==> bytes[j] == PackedByte(bits, j)
    ensures AllBytes(bytes) && TailCleared(bytes, n) == Packed(bits[..n])
  {
    forall j | 0 <= j < |bytes| ensures TailCleared(bytes, n)[j] == PackedByte(bits[..n], j) {
      TailByte(bits, n, j);
    }
  }

  lemma TailByte(bits: Bits, n: nat, j: nat)
    requires n <= |bits| && j < Bytes(n)
    ensures PackedByte(bits[..n], j) ==
            if n % 8 != 0 && j == Bytes(n) - 1 then And(PackedByte(bits, j), LowMask(n % 8, 8)) else PackedByte(bits, j)
  {
    var fixed := if n % 8 != 0 && j == Bytes(n) - 1 then And(PackedByte(bits, j), LowMask(n % 8, 8))
        else PackedByte(bits, j);
    forall k | 0 <= k < 8 ensures PackedByte(bits[..n], j)[k] == fixed[k] { }
  }

  lemma TailKeepsContent(data: seq<Bits>, n: nat)
    requires AllBytes(data) && n <= 8 * |data|
    ensures Unpacked(TailCleared(data, n), n) == Unpacked(data, n)
  {
    forall k | 0 <= k < n ensures BitAt(TailCleared(data, n), k) == BitAt(data, k) { }
  }

  lemma AssignedIsPacked(data: seq<Bits>, n: nat)
    requires AllBytes(data) && |data| == Bytes(n)
    ensures TailCleared(data, n) == Packed(Unpacked(TailCleared(data, n), n))
  {
    hide TailCleared;
    var bits := Unpacked(data, 8 * |data|);
    TailKeepsContent(data, n);
    forall j | 0 <= j < |data| ensures data[j] == PackedByte(bits, j) { ByteOfUnpacked(data, j); }
    TailIsPacked(bits, n, data);
    assert bits[..n] == Unpacked(data, n);
  }
}
