/** The register regions, input registers (3x) and holding registers (4x):
    _MemoryBlockRegs. A region of `count` 16-bit registers; register i
    occupies bytes 2i (low) and 2i + 1 (high) of the data plane, the layout
    of a c_ushort array on a little-endian host. */
module RegRegion {
  import opened Exceptions
  import opened Bytes
  import opened BitPacker
  import opened Codec
  import opened Tracker
  import opened Region

  // ---------------------------------------------------------------------
  // Typed values

  /** The guard of each typed accessor: the 8-bit ones only look at byte
      2 * offset against countbytes; the 16-, 32- and 64-bit ones check
      offset < count, count - 1 and count - 3. */
  predicate InRange(countbytes: nat, count: nat, offset: int, w: Width)
    ensures w != W8 ==> (InRange(countbytes, count, offset, w) <==> 0 <= offset && offset + Size(w) / 2 <= count)
    ensures InRange(countbytes, count, offset, w) && 2 * count <= countbytes
            ==> 0 <= 2 * offset && 2 * offset + Size(w) <= countbytes
  {
    match w
    case W8 => 0 <= 2 * offset < countbytes
    case W16 => 0 <= offset < count
    case W32 => 0 <= offset < count - 1
    case W64 => 0 <= offset < count - 3
  }

  /** Whether the 32- and 64-bit accessors reorder: always, except for the
      little byte order with the register order R0R1R2R3 (the default
      register order, -1, reorders too, though swap32 / swap64 then move
      nothing). */
  predicate Reordered(order: ByteOrder, regorder: int)
    ensures !Reordered(order, regorder) ==>
      order == Little && regorder != R3R2R1R0 && regorder != R1R0R3R2 && regorder != R2R3R0R1
  {
    !(order == Little && regorder == R0R1R2R3)
  }

  /** struct.unpack('<h', struct.pack('>h', v)) (or 'H' when unsigned): the
      16-bit value with its two bytes exchanged. */
  function Swapped16(v: int, signed: bool): (r: int)
    requires Fits(v, 2, signed)
    ensures Fits(r, 2, signed)
  {
    FromBytes(ToBytes(v, 2, Big, signed), Little, signed)
  }

  /** Exchanging the bytes twice gives the value back. */
  lemma Swapped16Involution(v: int, signed: bool)
    requires Fits(v, 2, signed)
    ensures Swapped16(Swapped16(v, signed), signed) == v
  {
    var le := ToBytes(v, 2, Little, signed);
    var x := ToBytes(v, 2, Big, signed);
    var u := Swapped16(v, signed);
    ToBytesBig(v, 2, signed);
    ToBytesFromBytes(x, Little, signed);
    ToBytesBig(u, 2, signed);
    ReverseReverse(le);
    FromBytesToBytes(v, 2, Little, signed);
  }

  /** The bytes a setter stores at byte 2 * offset for v, or the error it
      raises:
      - 8 bits: the low byte of v (a c_ubyte store truncates);
      - 16 bits: the big order passes v through struct first (StructError
        when v does not fit); the c_ushort store truncates;
      - 32 and 64 bits: when reordering, v.to_bytes (OverflowError when v
        does not fit), swap32 / swap64 and back; the ctypes store truncates. */
  function Encode(v: int, w: Width, signed: bool, order: ByteOrder, regorder: int): (r: Result<seq<byte>>)
    ensures r.Ok? ==> |r.value| == Size(w)
    ensures r.Err? <==> !Fits(v, Size(w), signed)
                        && ((w == W16 && order == Big) || ((w == W32 || w == W64) && Reordered(order, regorder)))
  {
    match w
    case W8 => Ok(CStore(v, 1))
    case W16 =>
      if order == Big then
        if !Fits(v, 2, signed) then Err(StructError) else Ok(CStore(Swapped16(v, signed), 2))
      else Ok(CStore(v, 2))
    case W32 =>
      if Reordered(order, regorder) then
        if !Fits(v, 4, signed) then Err(OverflowError)
        else Ok(CStore(FromBytes(Swap32(ToBytes(v, 4, Little, signed), order, regorder), Little, signed), 4))
      else Ok(CStore(v, 4))
    case W64 =>
      if Reordered(order, regorder) then
        if !Fits(v, 8, signed) then Err(OverflowError)
        else Ok(CStore(FromBytes(Swap64(ToBytes(v, 8, Little, signed), order, regorder), Little, signed), 8))
      else Ok(CStore(v, 8))
  }

  /** The value a getter returns for the bytes b at byte 2 * offset: the
      ctypes read (little-endian, signed or not), then for 16 bits under the
      big order the byte exchange, and for 32 and 64 bits when reordering
      swap32 / swap64 of its to_bytes, read back. */
  function Decode(b: seq<byte>, w: Width, signed: bool, order: ByteOrder, regorder: int): (v: int)
    requires |b| == Size(w)
    ensures Fits(v, Size(w), signed)
  {
    var value := FromBytes(b, Little, signed);
    match w
    case W8 => value
    case W16 => if order == Big then Swapped16(value, signed) else value
    case W32 =>
      if Reordered(order, regorder) then FromBytes(Swap32(ToBytes(value, 4, Little, signed), order, regorder), Little, signed)
      else value
    case W64 =>
      if Reordered(order, regorder) then FromBytes(Swap64(ToBytes(value, 8, Little, signed), order, regorder), Little, signed)
      else value
  }

  /** A value that fits is stored without error and reads back as itself,
      for every byte order and register order. */
  lemma DecodeEncode(v: int, w: Width, signed: bool, order: ByteOrder, regorder: int)
    requires Fits(v, Size(w), signed)
    ensures Encode(v, w, signed, order, regorder).Ok?
    ensures Decode(Encode(v, w, signed, order, regorder).value, w, signed, order, regorder) == v
  {
    var n := Size(w);
    var le := ToBytes(v, n, Little, signed);
    FromBytesToBytes(v, n, Little, signed);
    if w == W16 && order == Big {
      var x := Swapped16(v, signed);
      FromBytesToBytes(x, 2, Little, signed);
      Swapped16Involution(v, signed);
    } else if (w == W32 || w == W64) && Reordered(order, regorder) {
      var s := if w == W32 then Swap32(le, order, regorder) else Swap64(le, order, regorder);
      var y := FromBytes(s, Little, signed);
      ToBytesFromBytes(s, Little, signed);
      FromBytesToBytes(y, n, Little, signed);
      if w == W32 {
        Swap32Involution(le, order, regorder);
      } else {
        Swap64Involution(le, order, regorder);
      }
    }
  }

  /** Storing the value a getter returned writes back the bytes it read. */
  lemma EncodeDecode(b: seq<byte>, w: Width, signed: bool, order: ByteOrder, regorder: int)
    requires |b| == Size(w)
    ensures Encode(Decode(b, w, signed, order, regorder), w, signed, order, regorder) == Ok(b)
  {
    var n := Size(w);
    var value := FromBytes(b, Little, signed);
    ToBytesFromBytes(b, Little, signed);
    if w == W16 && order == Big {
      Swapped16Involution(value, signed);
    } else if (w == W32 || w == W64) && Reordered(order, regorder) {
      var s := if w == W32 then Swap32(b, order, regorder) else Swap64(b, order, regorder);
      var d := FromBytes(s, Little, signed);
      ToBytesFromBytes(s, Little, signed);
      if w == W32 {
        Swap32Involution(b, order, regorder);
      } else {
        Swap64Involution(b, order, regorder);
      }
      assert ToBytes(d, n, Little, signed) == s;
    }
  }

  /** Where no check guards the store (8 bits; 16 bits under the little
      order; 32 and 64 bits without reordering), any value is accepted and
      the getter reads it back reduced modulo 256^n, reinterpreted as signed
      when the accessor is signed: setuint16(70000) then reads 4464. */
  lemma SetWraps(v: int, w: Width, signed: bool, order: ByteOrder, regorder: int)
    requires w == W8 || (w == W16 && order == Little) || ((w == W32 || w == W64) && !Reordered(order, regorder))
    ensures Encode(v, w, signed, order, regorder).Ok?
    ensures Decode(Encode(v, w, signed, order, regorder).value, w, signed, order, regorder)
            == Signed(v % Pow256(Size(w)), Size(w), signed)
  {
    UnsignedOfLittleEndianMod(v, Size(w));
  }

  // ---------------------------------------------------------------------
  // The accessors on a region's contents

  /** A typed getter: 0 out of range, otherwise the value of its bytes. */
  function GetIntOf(data: seq<byte>, count: nat, offset: int, w: Width, signed: bool,
                    order: ByteOrder, regorder: int): (v: int)
    requires 2 * count <= |data|
    ensures !InRange(|data|, count, offset, w) ==> v == 0
    ensures Fits(v, Size(w), signed)
  {
    if !InRange(|data|, count, offset, w) then 0
    else Decode(Clamped(data, 2 * offset, Size(w)), w, signed, order, regorder)
  }

  /** A typed setter: nothing out of range, the encoding's error, or the
      encoded bytes stored at byte 2 * offset with their mask bytes set and
      the window widened over them. */
  function SetIntIn(s: Snapshot, count: nat, offset: int, w: Width, signed: bool,
                    order: ByteOrder, regorder: int, v: int): (r: Result<Snapshot>)
    ensures !InRange(|s.data|, count, offset, w) ==> r == Ok(s)
    ensures r.Ok? ==> |r.value.data| == |s.data| && |r.value.mask| == |s.mask|
  {
    if !InRange(|s.data|, count, offset, w) then Ok(s)
    else
      var e := Encode(v, w, signed, order, regorder);
      if e.Err? then Err(e.error) else Ok(Stored(s, 2 * offset, e.value))
  }

  /** region[index]: getuint16, or IndexError outside [0, count). */
  function GetItemOf(data: seq<byte>, count: nat, index: int, order: ByteOrder, regorder: int): (r: Result<int>)
    requires 2 * count <= |data|
    ensures r.Err? <==> index < 0 || index >= count
  {
    if index < 0 || index >= count then Err(IndexError)
    else Ok(GetIntOf(data, count, index, W16, false, order, regorder))
  }

  /** region[index] = v: setuint16, or IndexError outside [0, count). */
  function SetItemIn(s: Snapshot, count: nat, index: int, order: ByteOrder, regorder: int, v: int): (r: Result<Snapshot>)
    ensures (index < 0 || index >= count) ==> r == Err(IndexError)
  {
    if index < 0 || index >= count then Err(IndexError)
    else SetIntIn(s, count, index, W16, false, order, regorder, v)
  }

  // ---------------------------------------------------------------------
  // What the accessors promise

  /** Inside the region, a setter of a value that fits succeeds; the getter
      of the same width and signedness then returns the value; the bytes
      outside the value's own are kept, its mask bytes are all ones and the
      window is merged with its bytes. */
  lemma SetThenGetInt(s: Snapshot, count: nat, offset: int, w: Width, signed: bool,
                      order: ByteOrder, regorder: int, v: int)
    requires 2 * count <= |s.data| && InRange(|s.data|, count, offset, w) && Fits(v, Size(w), signed)
    ensures SetIntIn(s, count, offset, w, signed, order, regorder, v).Ok?
    ensures var t := SetIntIn(s, count, offset, w, signed, order, regorder, v).value;
      && GetIntOf(t.data, count, offset, w, signed, order, regorder) == v
      && (forall k :: 0 <= k < |s.data| && !(2 * offset <= k < 2 * offset + Size(w)) ==> t.data[k] == s.data[k])
      && (forall k :: 2 * offset <= k < 2 * offset + Size(w) && k < |s.mask| ==> t.mask[k] == 0xFF)
      && t.header == Merge(s.header, 2 * offset, Size(w))
  {
    DecodeEncode(v, w, signed, order, regorder);
    var e := Encode(v, w, signed, order, regorder).value;
    StoreThenLoad(s.data, 2 * offset, e);
  }

  /** Storing the value a getter just returned leaves the data plane as it
      was. */
  lemma GetThenSetInt(s: Snapshot, count: nat, offset: int, w: Width, signed: bool,
                      order: ByteOrder, regorder: int)
    requires 2 * count <= |s.data| && InRange(|s.data|, count, offset, w)
    ensures var v := GetIntOf(s.data, count, offset, w, signed, order, regorder);
      SetIntIn(s, count, offset, w, signed, order, regorder, v).Ok?
      && SetIntIn(s, count, offset, w, signed, order, regorder, v).value.data == s.data
  {
    var b := Clamped(s.data, 2 * offset, Size(w));
    EncodeDecode(b, w, signed, order, regorder);
    var d := StoreBytes(s.data, 2 * offset, b);
    assert forall k :: 0 <= k < |d| ==> d[k] == s.data[k];
  }

  /** region[index] = v with v in [0, 65535], then region[index], gives v. */
  lemma SetThenGetItem(s: Snapshot, count: nat, index: int, order: ByteOrder, regorder: int, v: int)
    requires 2 * count <= |s.data| && 0 <= index < count && 0 <= v < 0x1_0000
    ensures SetItemIn(s, count, index, order, regorder, v).Ok?
    ensures GetItemOf(SetItemIn(s, count, index, order, regorder, v).value.data, count, index, order, regorder) == Ok(v)
  {
    assert Fits(v, 2, false);
    SetThenGetInt(s, count, index, W16, false, order, regorder, v);
  }

  // ---------------------------------------------------------------------
  // The region object

  /** A register region over a MemoryBlock of 2 * count bytes. */
  class RegsBlock {
    const block: MemoryBlock
    /** The number of registers: the requested count, cut at countbytes // 2. */
    const count: nat

    predicate Valid()
      reads this, block
    {
      block.Valid() && 2 * count <= block.countbytes
    }

    /** Attaches to a segment of `size` bytes for `count` registers. */
    constructor (size: nat, count: nat, id: int, byteorder: OrderArg, regorder: int,
                 contents: seq<byte>, maskContents: seq<byte>, head: Header)
      requires Min(2 * count, size) <= |contents| && Min(2 * count, size) <= |maskContents|
      requires ValidHeader(head)
      ensures Valid() && fresh(block) && fresh(block.data) && fresh(block.mask)
      ensures block.countbytes == Min(2 * count, size)
      ensures this.count == Min(count, block.countbytes / 2)
      ensures block.byteorder == NormalizeByteOrder(byteorder) && block.registerorder == regorder
      ensures block.Snap() == Snapshot(contents[..block.countbytes], maskContents[..block.countbytes], head)
    {
      var b := new MemoryBlock(size, count * 2, id, byteorder, regorder, contents, maskContents, head);
      var c := b.countbytes / 2;
      block := b;
      this.count := if count <= c then count else c;
    }

    /** region[index]. */
    method GetItem(index: int) returns (r: Result<int>)
      requires Valid()
      ensures r == GetItemOf(block.data[..], count, index, block.byteorder, block.registerorder)
    {
      if index < 0 || index >= count {
        return Err(IndexError);
      }
      var v := GetInt(index, W16, false);
      r := Ok(v);
    }

    /** region[index] = value. */
    method SetItem(index: int, value: int) returns (r: Result<()>)
      requires Valid()
      modifies block, block.data, block.mask
      ensures Valid()
      ensures var s := SetItemIn(old(block.Snap()), count, index, block.byteorder, block.registerorder, value);
        if s.Err? then r == Err(s.error) && block.Snap() == old(block.Snap())
        else r == Ok(()) && block.Snap() == s.value
    {
      if index < 0 || index >= count {
        return Err(IndexError);
      }
      r := SetInt(index, W16, false, value);
    }

    /** getint8 … getuint64(offset). */
    method GetInt(offset: int, w: Width, signed: bool) returns (v: int)
      requires Valid()
      ensures v == GetIntOf(block.data[..], count, offset, w, signed, block.byteorder, block.registerorder)
    {
      if InRange(block.countbytes, count, offset, w) {
        var b := block.GetBytes(offset * 2, Size(w));
        v := Decode(b.value, w, signed, block.byteorder, block.registerorder);
      } else {
        v := 0;
      }
    }

    /** setint8 … setuint64(offset, value): the ctypes store of the encoded
        bytes, the mask bytes set to all ones and _recalcheader over them,
        which inside the region is setbytes. */
    method SetInt(offset: int, w: Width, signed: bool, value: int) returns (r: Result<()>)
      requires Valid()
      modifies block, block.data, block.mask
      ensures Valid()
      ensures var s := SetIntIn(old(block.Snap()), count, offset, w, signed, block.byteorder, block.registerorder, value);
        if s.Err? then r == Err(s.error) && block.Snap() == old(block.Snap())
        else r == Ok(()) && block.Snap() == s.value
    {
      if InRange(block.countbytes, count, offset, w) {
        var e := Encode(value, w, signed, block.byteorder, block.registerorder);
        if e.Err? {
          return Err(e.error);
        }
        block.SetBytes(offset * 2, e.value);
      }
      r := Ok(());
    }

    /** getstring(regoffset, bytecount): getregstring. */
    method GetString(regoffset: int, bytecount: int) returns (r: Result<seq<byte>>)
      requires Valid()
      ensures var x := GetBytesOf(block.data[..], regoffset * 2, bytecount);
        r == if x.Err? then x else Ok(StringBytes(x.value, block.byteorder))
    {
      r := block.GetRegString(regoffset, bytecount);
    }

    /** setstring(regoffset, value): setregstring. */
    method SetString(regoffset: int, value: seq<byte>)
      requires Valid()
      modifies block, block.data, block.mask
      ensures Valid()
      ensures block.Snap() == Stored(old(block.Snap()), regoffset * 2, StringBytes(value, block.byteorder))
    {
      block.SetRegString(regoffset, value);
    }
  }
}
