/** The bit regions, coils (0x) and discrete inputs (1x): _MemoryBlockBits.
    A region of `count` bits, indexed bit by bit, with typed integer
    accessors laid over any run of bits. */
module BitRegion {
  import opened Exceptions
  import opened Bytes
  import opened BitPacker
  import opened Codec
  import opened Region

  // ---------------------------------------------------------------------
  // Typed values

  /** The guard of every typed accessor: 0 <= bitoffset < count - (w - 1),
      w the width in bits; it holds exactly when the value's bits lie in the
      region's first count bits. */
  predicate InRange(count: nat, bitoffset: int, w: Width)
    ensures InRange(count, bitoffset, w) <==> 0 <= bitoffset && bitoffset + 8 * Size(w) <= count
  {
    0 <= bitoffset < count - (8 * Size(w) - 1)
  }

  /** The bytes a setter hands to setbitbytes for v: v.to_bytes in the
      region's byte order for 8 and 16 bits, swap32 / swap64 of the
      little-endian bytes for 32 and 64 bits; OverflowError when v does not
      fit the width. */
  function Encode(v: int, w: Width, signed: bool, order: ByteOrder, regorder: int): (r: Result<seq<byte>>)
    ensures r.Ok? <==> Fits(v, Size(w), signed)
    ensures r.Ok? ==> |r.value| == Size(w)
  {
    if !Fits(v, Size(w), signed) then Err(OverflowError)
    else
      match w
      case W8 => Ok(ToBytes(v, 1, order, signed))
      case W16 => Ok(ToBytes(v, 2, order, signed))
      case W32 => Ok(Swap32(ToBytes(v, 4, Little, signed), order, regorder))
      case W64 => Ok(Swap64(ToBytes(v, 8, Little, signed), order, regorder))
  }

  /** The value a getter makes of the bytes it read: int.from_bytes in the
      region's byte order for 8 and 16 bits, of swap32 / swap64 of the bytes
      read little-endian for 32 and 64 bits. */
  function Decode(b: seq<byte>, w: Width, signed: bool, order: ByteOrder, regorder: int): (v: int)
    ensures |b| == Size(w) ==> Fits(v, Size(w), signed)
  {
    match w
    case W8 => FromBytes(b, order, signed)
    case W16 => FromBytes(b, order, signed)
    case W32 => FromBytes(Swap32(b, order, regorder), Little, signed)
    case W64 => FromBytes(Swap64(b, order, regorder), Little, signed)
  }

  /** Decoding the encoding of a value that fits gives the value back, for
      every byte order and register order. */
  lemma DecodeEncode(v: int, w: Width, signed: bool, order: ByteOrder, regorder: int)
    requires Fits(v, Size(w), signed)
    ensures Encode(v, w, signed, order, regorder).Ok?
    ensures Decode(Encode(v, w, signed, order, regorder).value, w, signed, order, regorder) == v
  {
    var le := ToBytes(v, Size(w), Little, signed);
    FromBytesToBytes(v, Size(w), order, signed);
    FromBytesToBytes(v, Size(w), Little, signed);
    if w == W32 {
      Swap32Involution(le, order, regorder);
    } else if w == W64 {
      Swap64Involution(le, order, regorder);
    }
  }

  /** Every byte pattern of the right size is the encoding of the value it
      decodes to. */
  lemma EncodeDecode(b: seq<byte>, w: Width, signed: bool, order: ByteOrder, regorder: int)
    requires |b| == Size(w)
    ensures Encode(Decode(b, w, signed, order, regorder), w, signed, order, regorder) == Ok(b)
  {
    if w == W32 {
      var x := Swap32(b, order, regorder);
      ToBytesFromBytes(x, Little, signed);
      Swap32Involution(b, order, regorder);
    } else if w == W64 {
      var x := Swap64(b, order, regorder);
      ToBytesFromBytes(x, Little, signed);
      Swap64Involution(b, order, regorder);
    } else {
      ToBytesFromBytes(b, order, signed);
    }
  }

  // ---------------------------------------------------------------------
  // The accessors on a region's contents

  /** What region[index] returns: the bit, or IndexError outside
      [0, count). */
  function GetItemOf(data: seq<byte>, count: nat, index: int): (r: Result<bool>)
    ensures r.Err? <==> index < 0 || index >= count
  {
    if index < 0 || index >= count then Err(IndexError) else Ok(GetBitOf(data, index))
  }

  /** The region after region[index] = v, or IndexError outside [0, count). */
  function SetItemIn(s: Snapshot, count: nat, index: int, v: bool): (r: Result<Snapshot>)
    ensures r.Err? <==> index < 0 || index >= count
  {
    if index < 0 || index >= count then Err(IndexError) else Ok(BitSet(s, index, v))
  }

  /** A typed getter: 0 out of range, otherwise the value of the bits read,
      or the error the read raised. */
  function GetIntOf(data: seq<byte>, count: nat, bitoffset: int, w: Width, signed: bool,
                    order: ByteOrder, regorder: int): (r: Result<int>)
    ensures !InRange(count, bitoffset, w) ==> r == Ok(0)
  {
    if !InRange(count, bitoffset, w) then Ok(0)
    else
      var b := ReadBits(data, bitoffset, 8 * Size(w));
      if b.Err? then Err(b.error) else Ok(Decode(b.value, w, signed, order, regorder))
  }

  /** A typed setter: nothing out of range, OverflowError for a value that
      does not fit, otherwise setbitbytes of the encoded bytes. */
  function SetIntIn(s: Snapshot, count: nat, bitoffset: int, w: Width, signed: bool,
                    order: ByteOrder, regorder: int, v: int): (r: Result<Snapshot>)
    ensures !InRange(count, bitoffset, w) ==> r == Ok(s)
    ensures InRange(count, bitoffset, w) && !Fits(v, Size(w), signed) ==> r == Err(OverflowError)
  {
    if !InRange(count, bitoffset, w) then Ok(s)
    else
      var e := Encode(v, w, signed, order, regorder);
      if e.Err? then Err(e.error) else BitsStored(s, bitoffset, 8 * Size(w), e.value)
  }

  // ---------------------------------------------------------------------
  // What the accessors promise

  /** Inside the region, a typed getter reads the value's bytes without
      error and returns a value of the width. */
  lemma GetIntInRange(data: seq<byte>, count: nat, bitoffset: int, w: Width, signed: bool,
                      order: ByteOrder, regorder: int)
    requires count <= 8 * |data| && InRange(count, bitoffset, w)
    ensures var r := GetIntOf(data, count, bitoffset, w, signed, order, regorder);
      r.Ok? && Fits(r.value, Size(w), signed)
  {
    var b := ReadWhole(data, count, bitoffset, w);
  }

  /** Inside the region, a typed setter of a value that fits succeeds and
      the getter of the same width and signedness then returns the value,
      for every byte order and register order. */
  lemma SetThenGetInt(s: Snapshot, count: nat, bitoffset: int, w: Width, signed: bool,
                      order: ByteOrder, regorder: int, v: int)
    requires count <= 8 * |s.data| && InRange(count, bitoffset, w) && Fits(v, Size(w), signed)
    ensures SetIntIn(s, count, bitoffset, w, signed, order, regorder, v).Ok?
    ensures var t := SetIntIn(s, count, bitoffset, w, signed, order, regorder, v).value;
      GetIntOf(t.data, count, bitoffset, w, signed, order, regorder) == Ok(v)
  {
    DecodeEncode(v, w, signed, order, regorder);
    var e := Encode(v, w, signed, order, regorder).value;
    var n := 8 * |e|;
    assert n == 8 * Size(w) && n % 8 == 0;
    WriteThenReadWhole(s.data, bitoffset, e);
    var t := WriteBits(s.data, bitoffset, n, e).value;
    assert SetIntIn(s, count, bitoffset, w, signed, order, regorder, v) == BitsStored(s, bitoffset, n, e);
    assert BitsStored(s, bitoffset, n, e).value.data == t;
    assert ReadBits(t, bitoffset, n) == Ok(e);
    assert GetIntOf(t, count, bitoffset, w, signed, order, regorder) == Ok(Decode(e, w, signed, order, regorder));
  }

  /** A typed setter changes only the value's own bits: every bit of the
      region outside [bitoffset, bitoffset + w) keeps its value. */
  lemma SetIntKeepsOtherBits(s: Snapshot, count: nat, bitoffset: int, w: Width, signed: bool,
                             order: ByteOrder, regorder: int, v: int)
    requires count <= 8 * |s.data| && InRange(count, bitoffset, w) && Fits(v, Size(w), signed)
    ensures SetIntIn(s, count, bitoffset, w, signed, order, regorder, v).Ok?
    ensures Spliced(SetIntIn(s, count, bitoffset, w, signed, order, regorder, v).value.data, s.data,
                    Encode(v, w, signed, order, regorder).value, bitoffset, 8 * Size(w))
  {
    var e := Encode(v, w, signed, order, regorder).value;
    WriteBitsStores(s.data, bitoffset, 8 * Size(w), e);
  }

  /** Setting the value just read leaves the data plane as it was. */
  lemma GetThenSetInt(s: Snapshot, count: nat, bitoffset: int, w: Width, signed: bool,
                      order: ByteOrder, regorder: int)
    requires count <= 8 * |s.data| && InRange(count, bitoffset, w)
    ensures GetIntOf(s.data, count, bitoffset, w, signed, order, regorder).Ok?
    ensures var v := GetIntOf(s.data, count, bitoffset, w, signed, order, regorder).value;
      SetIntIn(s, count, bitoffset, w, signed, order, regorder, v).Ok?
      && SetIntIn(s, count, bitoffset, w, signed, order, regorder, v).value.data == s.data
  {
    var b := ReadWhole(s.data, count, bitoffset, w);
    var v := Decode(b, w, signed, order, regorder);
    EncodeDecode(b, w, signed, order, regorder);
    assert SetIntIn(s, count, bitoffset, w, signed, order, regorder, v) == BitsStored(s, bitoffset, 8 * Size(w), b);
  }

  /** The bytes an in-range getter reads, which written back change nothing. */
  lemma ReadWhole(data: seq<byte>, count: nat, bitoffset: int, w: Width) returns (b: seq<byte>)
    requires count <= 8 * |data| && InRange(count, bitoffset, w)
    ensures |b| == Size(w) && ReadBits(data, bitoffset, 8 * Size(w)) == Ok(b)
    ensures WriteBits(data, bitoffset, 8 * Size(w), b) == Ok(data)
  {
    var n := 8 * Size(w);
    assert (n + 7) / 8 == Size(w) && n % 8 == 0;
    assert 0 <= bitoffset && 0 < n && bitoffset + n <= 8 * |data|;
    ReadBitsFixedPacks(data, bitoffset, n);
    ReadThenWrite(data, bitoffset, n);
    b := ReadBitsFixed(data, bitoffset, n).value;
    ReadBitsWhole(data, bitoffset, n);
  }

  /** region[index] = v, then region[p]: v at index, the old bit elsewhere. */
  lemma SetThenGetItem(s: Snapshot, count: nat, index: int, v: bool, p: int)
    requires count <= 8 * |s.data| && 0 <= index < count
    ensures SetItemIn(s, count, index, v).Ok?
    ensures GetItemOf(SetItemIn(s, count, index, v).value.data, count, p)
         == if p == index then Ok(v) else GetItemOf(s.data, count, p)
  {
    SetBitThenGet(s.data, index, v, p);
  }

  // ---------------------------------------------------------------------
  // The region object

  /** A bit region over a MemoryBlock of (count + 7) // 8 bytes. */
  class BitsBlock {
    const block: MemoryBlock
    /** The number of bits: the requested count, cut at 8 * countbytes. */
    const count: nat

    predicate Valid()
      reads this, block
    {
      block.Valid() && count <= 8 * block.countbytes
    }

    /** Attaches to a segment of `size` bytes for `count` bits. */
    constructor (size: nat, count: nat, id: int, byteorder: OrderArg, regorder: int,
                 contents: seq<byte>, maskContents: seq<byte>, head: Tracker.Header)
      requires Min((count + 7) / 8, size) <= |contents| && Min((count + 7) / 8, size) <= |maskContents|
      requires Tracker.ValidHeader(head)
      ensures Valid() && fresh(block) && fresh(block.data) && fresh(block.mask)
      ensures block.countbytes == Min((count + 7) / 8, size)
      ensures this.count == Min(count, 8 * block.countbytes)
      ensures block.byteorder == NormalizeByteOrder(byteorder) && block.registerorder == regorder
      ensures block.Snap() == Snapshot(contents[..block.countbytes], maskContents[..block.countbytes], head)
    {
      var b := new MemoryBlock(size, (count + 7) / 8, id, byteorder, regorder, contents, maskContents, head);
      var c := b.countbytes * 8;
      block := b;
      this.count := if count <= c then count else c;
    }

    /** region[index]. */
    method GetItem(index: int) returns (r: Result<bool>)
      requires Valid()
      ensures r == GetItemOf(block.data[..], count, index)
    {
      if index < 0 || index >= count {
        return Err(IndexError);
      }
      var b := block.GetBit(index);
      r := Ok(b);
    }

    /** region[index] = value. */
    method SetItem(index: int, value: bool) returns (r: Result<()>)
      requires Valid()
      modifies block, block.data, block.mask
      ensures Valid()
      ensures var s := SetItemIn(old(block.Snap()), count, index, value);
        if s.Err? then r == Err(s.error) && block.Snap() == old(block.Snap())
        else r == Ok(()) && block.Snap() == s.value
    {
      if index < 0 || index >= count {
        return Err(IndexError);
      }
      block.SetBit(index, value);
      r := Ok(());
    }

    /** getint8 … getuint64(bitoffset). */
    method GetInt(bitoffset: int, w: Width, signed: bool) returns (r: Result<int>)
      requires Valid()
      ensures r == GetIntOf(block.data[..], count, bitoffset, w, signed, block.byteorder, block.registerorder)
    {
      if 0 <= bitoffset < count - (8 * Size(w) - 1) {
        var b := block.GetBitByteArray(bitoffset, 8 * Size(w));
        if b.Err? {
          return Err(b.error);
        }
        r := Ok(Decode(b.value, w, signed, block.byteorder, block.registerorder));
      } else {
        r := Ok(0);
      }
    }

    /** setint8 … setuint64(bitoffset, value). */
    method SetInt(bitoffset: int, w: Width, signed: bool, value: int) returns (r: Result<()>)
      requires Valid()
      modifies block, block.data, block.mask
      ensures Valid()
      ensures var s := SetIntIn(old(block.Snap()), count, bitoffset, w, signed, block.byteorder, block.registerorder, value);
        if s.Err? then r == Err(s.error) && block.Snap() == old(block.Snap())
        else r == Ok(()) && block.Snap() == s.value
    {
      if 0 <= bitoffset < count - (8 * Size(w) - 1) {
        var e := Encode(value, w, signed, block.byteorder, block.registerorder);
        if e.Err? {
          return Err(e.error);
        }
        r := block.SetBitBytes(bitoffset, 8 * Size(w), e.value);
      } else {
        r := Ok(());
      }
    }

    /** getstring(bitoffset, bytecount): getbitstring. */
    method GetString(bitoffset: int, bytecount: int) returns (r: Result<seq<byte>>)
      requires Valid()
      ensures var x := ReadBits(block.data[..], bitoffset, 8 * bytecount);
        r == if x.Err? then x else Ok(StringBytes(x.value, block.byteorder))
    {
      r := block.GetBitString(bitoffset, bytecount);
    }

    /** setstring(bitoffset, value): setbitstring. */
    method SetString(bitoffset: int, value: seq<byte>) returns (r: Result<()>)
      requires Valid()
      modifies block, block.data, block.mask
      ensures Valid()
      ensures var b := StringBytes(value, block.byteorder);
        var s := BitsStored(old(block.Snap()), bitoffset, |b| * 8, b);
        if s.Err? then r == Err(s.error) && block.Snap() == old(block.Snap())
        else r == Ok(()) && block.Snap() == s.value
    {
      r := block.SetBitString(bitoffset, value);
    }
  }
}
