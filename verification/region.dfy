/** A memory region of the device (_MemoryBlock): a data plane and a mask
    plane of countbytes bytes each in shared memory, behind a change
    header. Every store copies into the data plane, sets the matching mask
    bytes to all ones and widens the header's change window. */
module Region {
  import opened Exceptions
  import opened Bytes
  import opened BitPacker
  import opened Codec
  import opened Tracker

  /** The header after a setbytes(byteoffset, value) of n bytes: merged
      with the stored run, or unchanged when byteoffset is outside. */
  function StoredHeader(h: Header, size: nat, byteoffset: int, n: nat): (r: Header)
    ensures !(0 <= byteoffset < size) ==> r == h
  {
    if 0 <= byteoffset < size then Merge(h, byteoffset, StoreCount(size, byteoffset, n)) else h
  }

  /** What a region holds: its data plane, its mask plane and its header. */
  datatype Snapshot = Snapshot(data: seq<byte>, mask: seq<byte>, header: Header)

  /** The region after setbytes(byteoffset, value): the stored run copied
      into the data plane, the same mask bytes set to 0xFF and the window
      widened over it. */
  function Stored(s: Snapshot, byteoffset: int, value: seq<byte>): (r: Snapshot)
    ensures |r.data| == |s.data| && |r.mask| == |s.mask|
  {
    Snapshot(StoreBytes(s.data, byteoffset, value), StoreBytes(s.mask, byteoffset, Ones(|value|)),
             StoredHeader(s.header, |s.data|, byteoffset, |value|))
  }

  /** The region after setbitbytes(bitoffset, bitcount, value): the
      rewritten covering bytes stored with setbytes, or the error raised
      while rewriting them. */
  function BitsStored(s: Snapshot, bitoffset: int, bitcount: int, value: seq<byte>): (r: Result<Snapshot>)
    ensures r.Ok? ==> |r.value.data| == |s.data| && |r.value.mask| == |s.mask|
  {
    var run := RewriteRun(s.data, bitoffset, bitcount, value);
    if run.Err? then Err(run.error) else Ok(Stored(s, bitoffset / 8, run.value))
  }

  /** The region after setbit(bitoffset, v). */
  function BitSet(s: Snapshot, bitoffset: int, v: bool): (r: Snapshot)
    ensures |r.data| == |s.data| && |r.mask| == |s.mask|
  {
    Snapshot(SetBitIn(s.data, bitoffset, v), SetBitIn(s.mask, bitoffset, true),
             if 0 <= bitoffset / 8 < |s.data| then Merge(s.header, bitoffset / 8, 1) else s.header)
  }

  /** The change window lies inside the data plane, and the header holds
      c_uint fields. */
  predicate WindowInside(s: Snapshot)
  {
    ValidHeader(s.header) && s.header.offset + s.header.count <= |s.data|
  }

  /** In a region of fewer than 2^32 bytes, a store keeps the change window
      inside the region: the run it merges in ends at the region's end at
      the latest, so no field wraps. */
  lemma StoredHeaderInside(h: Header, size: nat, byteoffset: int, n: nat)
    requires ValidHeader(h) && h.offset + h.count <= size < U32
    ensures var r := StoredHeader(h, size, byteoffset, n);
      ValidHeader(r) && r.offset + r.count <= size
  {
    if 0 <= byteoffset < size {
      MergeWindow(h, byteoffset, StoreCount(size, byteoffset, n));
    }
  }

  /** setbytes, setbitbytes and setbit keep the window inside the region. */
  lemma StoresKeepWindow(s: Snapshot, byteoffset: int, value: seq<byte>, bitoffset: int, bitcount: int, v: bool)
    requires WindowInside(s) && |s.data| < U32
    ensures WindowInside(Stored(s, byteoffset, value))
    ensures var w := BitsStored(s, bitoffset, bitcount, value); w.Ok? ==> WindowInside(w.value)
    ensures WindowInside(BitSet(s, bitoffset, v))
  {
    StoredHeaderInside(s.header, |s.data|, byteoffset, |value|);
    var run := RewriteRun(s.data, bitoffset, bitcount, value);
    if run.Ok? {
      StoredHeaderInside(s.header, |s.data|, bitoffset / 8, |run.value|);
    }
    StoredHeaderInside(s.header, |s.data|, bitoffset / 8, 1);
  }

  /** A region attached to a shared-memory segment. */
  class MemoryBlock {
    /** Bytes in each plane: the requested count, cut at the segment size. */
    const countbytes: nat
    /** The data plane (_pmembytes) and the mask plane (_pmaskbytes). */
    const data: array<byte>
    const mask: array<byte>
    /** The change header (_head). */
    var changeCounter: nat
    var changeByteOffset: nat
    var changeByteCount: nat
    const byteorder: ByteOrder
    const registerorder: int
    const id: int

    predicate Valid()
      reads this
    {
      && data.Length == countbytes && mask.Length == countbytes && data != mask
      && ValidHeader(Header())
    }

    function Header(): (h: Header)
      reads this
      ensures h.counter == changeCounter && h.offset == changeByteOffset && h.count == changeByteCount
    {
      Tracker.Header(changeCounter, changeByteOffset, changeByteCount)
    }

    /** What the region holds now. */
    function Snap(): (s: Snapshot)
      reads this, data, mask
      ensures s.data == data[..] && s.mask == mask[..] && s.header == Header()
    {
      Snapshot(data[..], mask[..], Header())
    }

    /** Attaches to a segment of `size` bytes whose planes and header hold
        `contents`, `maskContents` and `head`. */
    constructor (size: nat, bytecount: nat, id: int, byteorder: OrderArg, regorder: int,
                 contents: seq<byte>, maskContents: seq<byte>, head: Header)
      requires Min(bytecount, size) <= |contents| && Min(bytecount, size) <= |maskContents|
      requires ValidHeader(head)
      ensures Valid() && fresh(data) && fresh(mask)
      ensures countbytes == Min(bytecount, size)
      ensures data[..] == contents[..countbytes] && mask[..] == maskContents[..countbytes]
      ensures Header() == head
      ensures this.byteorder == NormalizeByteOrder(byteorder) && registerorder == regorder && this.id == id
    {
      var cbytes := if bytecount <= size then bytecount else size;
      this.byteorder := NormalizeByteOrder(byteorder);
      registerorder := regorder;
      countbytes := cbytes;
      this.id := id;
      data := new byte[cbytes](i requires 0 <= i < cbytes => contents[i]);
      mask := new byte[cbytes](i requires 0 <= i < cbytes => maskContents[i]);
      changeCounter, changeByteOffset, changeByteCount := head.counter, head.offset, head.count;
    }

    /** _recalcheader(byteoffset, bytecount). */
    method RecalcHeader(byteoffset: nat, bytecount: nat)
      modifies this
      ensures Header() == Merge(old(Header()), byteoffset, bytecount)
    {
      var rightedge := byteoffset + bytecount;
      if changeByteOffset > byteoffset {
        if changeByteCount == 0 {
          changeByteCount := U(rightedge - byteoffset);
        } else {
          changeByteCount := U(changeByteCount + (changeByteOffset - byteoffset));
        }
        changeByteOffset := U(byteoffset);
      }
      if changeByteOffset + changeByteCount < rightedge {
        changeByteCount := U(rightedge - changeByteOffset);
      }
      changeCounter := U(changeCounter + 1);
    }

    /** getbytes / getbytearray (_getbytes). */
    method GetBytes(byteoffset: int, count: int) returns (r: Result<seq<byte>>)
      requires Valid()
      ensures r == GetBytesOf(data[..], byteoffset, count)
    {
      if 0 <= byteoffset < countbytes {
        var c := if byteoffset + count > countbytes then countbytes - byteoffset else count;
        if c < 0 {
          return Err(ValueError);
        }
        r := Ok(data[byteoffset..byteoffset + c]);
      } else {
        r := Ok([]);
      }
    }

    /** setbytes(byteoffset, value): copies value into the data plane, cut at
        the region's end, sets the same mask bytes and widens the window. */
    method SetBytes(byteoffset: int, value: seq<byte>)
      requires Valid()
      modifies this, data, mask
      ensures Valid()
      ensures Snap() == Stored(old(Snap()), byteoffset, value)
    {
      if 0 <= byteoffset < countbytes {
        var count := |value|;
        var c := if byteoffset + count > countbytes then countbytes - byteoffset else count;
        forall k | byteoffset <= k < byteoffset + c {
          data[k] := value[k - byteoffset];
        }
        forall k | byteoffset <= k < byteoffset + c {
          mask[k] := 0xFF;
        }
        RecalcHeader(byteoffset, c);
      }
    }

    /** getbitbytearray(bitoffset, bitcount), as written: the covering bytes
        realigned by the loop, the last requested byte shifted and masked,
        the byte after it dropped (see BitPacker.ReadBitsStraddle for the
        tail shift). */
    method GetBitByteArray(bitoffset: int, bitcount: int) returns (r: Result<seq<byte>>)
      requires Valid()
      ensures r == ReadBits(data[..], bitoffset, bitcount)
    {
      var byteoffset := bitoffset / 8;
      var rbyteoffset := (bitoffset + bitcount - 1) / 8;
      var bytecount := rbyteoffset - byteoffset + 1;
      var got := GetBytes(byteoffset, bytecount);
      if got.Err? {
        return got;
      }
      if bitcount < 0 {
        // At most one covering byte: byarray[ri] or del byarray[ri + 1]
        // fails on none, and one is masked and then deleted.
        return if got.value == [] then Err(IndexError) else Ok([]);
      }
      assert bytecount == CoverCount(bitoffset, bitcount);
      var byarray := got.value;
      var shift := Idx(bitoffset % 8);
      if shift != 0 {
        byarray := RealignLoop(byarray, shift);
      }
      r := TrimLoop(byarray, shift, Idx(bitcount % 8), (bitcount - 1) / 8);
    }

    /** setbitbytes(bitoffset, bitcount, value): rewrites the covering bytes
        and stores them back with setbytes; an index error raised on the way
        leaves the region as it was. */
    method SetBitBytes(bitoffset: int, bitcount: int, value: seq<byte>) returns (r: Result<()>)
      requires Valid()
      modifies this, data, mask
      ensures Valid()
      ensures var s := BitsStored(old(Snap()), bitoffset, bitcount, value);
        if s.Err? then r == Err(s.error) && Snap() == old(Snap()) else r == Ok(()) && Snap() == s.value
    {
      var byteoffset := bitoffset / 8;
      var rbyteoffset := (bitoffset + bitcount - 1) / 8;
      var bytecount := rbyteoffset - byteoffset + 1;
      var got := GetBytes(byteoffset, bytecount);
      if got.Err? {
        return Err(got.error);
      }
      if bitcount < 0 {
        // c = bitcount // 8 < 0: no loop pass, and the tail indexes from the end.
        NegativeCover(bitoffset, bitcount);
        var t := NegativeTail(got.value, value, Idx(bitoffset % 8), Idx(bitcount % 8), bitcount / 8);
        if t.Err? {
          return Err(t.error);
        }
        SetBytes(byteoffset, t.value);
        return Ok(());
      }
      assert bytecount == CoverCount(bitoffset, bitcount);
      var byarray := got.value;
      ghost var s0 := Snap();
      ghost var run := RewriteRun(s0.data, bitoffset, bitcount, value);
      var shift := Idx(bitoffset % 8);
      var c := bitcount / 8;
      var rem := Idx(bitcount % 8);
      var a: Result<seq<byte>>;
      if shift != 0 {
        a := ShiftBytes(byarray, value, shift, c);
      } else if c > 0 {
        a := Ok(SliceAssign(byarray, c, value));
      } else {
        a := Ok(byarray);
      }
      if a.Err? {
        assert run == a;
        return Err(a.error);
      }
      var b := WriteTailBytes(a.value, value, shift, rem, c);
      assert run == b;
      if b.Err? {
        return Err(b.error);
      }
      assert BitsStored(s0, bitoffset, bitcount, value) == Ok(Stored(s0, byteoffset, b.value));
      SetBytes(byteoffset, b.value);
      r := Ok(());
    }

    /** getbit(bitoffset). */
    method GetBit(bitoffset: int) returns (b: bool)
      requires Valid()
      ensures b == GetBitOf(data[..], bitoffset)
    {
      var byteoffset := bitoffset / 8;
      if 0 <= byteoffset < countbytes {
        var vbyte := data[byteoffset];
        return vbyte & BitMask(bitoffset % 8) != 0;
      }
      return false;
    }

    /** setbit(bitoffset, value): sets or clears one bit, sets its mask bit
        and widens the window by its byte; nothing outside the region. */
    method SetBit(bitoffset: int, value: bool)
      requires Valid()
      modifies this, data, mask
      ensures Valid()
      ensures Snap() == BitSet(old(Snap()), bitoffset, value)
    {
      var byteoffset := bitoffset / 8;
      if 0 <= byteoffset < countbytes {
        var bit := bitoffset % 8;
        data[byteoffset] := WithBit(data[byteoffset], bit, value);
        mask[byteoffset] := WithBit(mask[byteoffset], bit, true);
        RecalcHeader(byteoffset, 1);
      }
    }

    /** The encoded bytes of getbitstring(bitoffset, bytecount). */
    method GetBitString(bitoffset: int, bytecount: int) returns (r: Result<seq<byte>>)
      requires Valid()
      ensures var x := ReadBits(data[..], bitoffset, 8 * bytecount);
        r == if x.Err? then x else Ok(StringBytes(x.value, byteorder))
    {
      var x := GetBitByteArray(bitoffset, bytecount * 8);
      if x.Err? {
        return x;
      }
      if byteorder == Big {
        var a := SwappedCopy(x.value);
        return Ok(a);
      }
      return x;
    }

    /** setbitstring(bitoffset, value), value the encoded bytes. */
    method SetBitString(bitoffset: int, value: seq<byte>) returns (r: Result<()>)
      requires Valid()
      modifies this, data, mask
      ensures Valid()
      ensures var b := StringBytes(value, byteorder);
        var s := BitsStored(old(Snap()), bitoffset, |b| * 8, b);
        if s.Err? then r == Err(s.error) && Snap() == old(Snap()) else r == Ok(()) && Snap() == s.value
    {
      var b := value;
      if byteorder == Big {
        var a := SwappedCopy(value);
        b := a;
      }
      assert b == StringBytes(value, byteorder);
      r := SetBitBytes(bitoffset, |b| * 8, b);
    }

    /** The encoded bytes of getbytestring(byteoffset, bytecount). */
    method GetByteString(byteoffset: int, bytecount: int) returns (r: Result<seq<byte>>)
      requires Valid()
      ensures var x := GetBytesOf(data[..], byteoffset, bytecount);
        r == if x.Err? then x else Ok(StringBytes(x.value, byteorder))
    {
      var x := GetBytes(byteoffset, bytecount);
      if x.Err? {
        return x;
      }
      if byteorder == Big {
        var a := SwappedCopy(x.value);
        return Ok(a);
      }
      return x;
    }

    /** setbytestring(byteoffset, value), value the encoded bytes. */
    method SetByteString(byteoffset: int, value: seq<byte>)
      requires Valid()
      modifies this, data, mask
      ensures Valid()
      ensures Snap() == Stored(old(Snap()), byteoffset, StringBytes(value, byteorder))
    {
      var b := value;
      if byteorder == Big {
        var a := SwappedCopy(value);
        b := a;
      }
      SetBytes(byteoffset, b);
    }

    /** The encoded bytes of getregstring(regoffset, bytecount): a byte
        string starting at register regoffset. */
    method GetRegString(regoffset: int, bytecount: int) returns (r: Result<seq<byte>>)
      requires Valid()
      ensures var x := GetBytesOf(data[..], regoffset * 2, bytecount);
        r == if x.Err? then x else Ok(StringBytes(x.value, byteorder))
    {
      r := GetByteString(regoffset * 2, bytecount);
    }

    /** setregstring(regoffset, value). */
    method SetRegString(regoffset: int, value: seq<byte>)
      requires Valid()
      modifies this, data, mask
      ensures Valid()
      ensures Snap() == Stored(old(Snap()), regoffset * 2, StringBytes(value, byteorder))
    {
      SetByteString(regoffset * 2, value);
    }
  }

  // ---------------------------------------------------------------------
  // The loops of getbitbytearray and setbitbytes, on the local bytearray

  /** swapbyteorder(bytearray(b)): a fresh copy of b with its pairs
      swapped in place. */
  method SwappedCopy(b: seq<byte>) returns (r: seq<byte>)
    ensures r == SwapPairs(b)
  {
    var a := new byte[|b|](i requires 0 <= i < |b| => b[i]);
    assert a[..] == b;
    SwapByteOrder(a);
    r := a[..];
  }

  /** The realignment loop of getbitbytearray: each byte but the last
      rebuilt from itself and its successor. */
  method RealignLoop(raw: seq<byte>, shift: bv8) returns (byarray: seq<byte>)
    requires 0 < shift < 8
    ensures byarray == Realign(raw, shift)
  {
    byarray := raw;
    var c := |byarray| - 1;
    var i := 0;
    while i < c
      invariant 0 <= i <= |raw| && |byarray| == |raw| && (i == 0 || i <= c)
      invariant forall k :: 0 <= k < i ==> byarray[k] == Realign(raw, shift)[k]
      invariant forall k :: i <= k < |raw| ==> byarray[k] == raw[k]
    {
      byarray := byarray[i := Combine(byarray[i], byarray[i + 1], shift)];
      i := i + 1;
    }
  }

  /** The end of getbitbytearray: the last requested byte ri shifted down
      and masked to its rem bits, then the byte after it deleted. */
  method TrimLoop(byarray: seq<byte>, shift: bv8, rem: bv8, ri: int) returns (r: Result<seq<byte>>)
    requires shift < 8 && rem < 8 && ri >= -1 && (rem != 0 ==> ri >= 0)
    ensures r == TrimWritten(byarray, shift, rem, ri)
  {
    var b := byarray;
    if rem != 0 {
      if ri >= |b| {
        return Err(IndexError);
      }
      var x := b[ri];
      x := (x >> shift) & LowMask(rem);
      b := b[ri := x];
    }
    if |b| > ri + 1 {
      b := DeleteAt(b, ri + 1);
    }
    r := Ok(b);
  }

  /** The shifting loop of setbitbytes: byte pair i, i + 1 rewritten with
      value[i] placed from bit `shift`, for i below c. */
  method ShiftBytes(raw: seq<byte>, value: seq<byte>, shift: bv8, c: nat) returns (r: Result<seq<byte>>)
    requires 0 < shift < 8
    ensures r == ShiftLoop(raw, value, shift, 0, c)
  {
    var byarray := raw;
    for i := 0 to c
      invariant |byarray| == |raw|
      invariant ShiftLoop(byarray, value, shift, i, c) == ShiftLoop(raw, value, shift, 0, c)
    {
      if i >= |value| || i + 1 >= |byarray| {
        return Err(IndexError);
      }
      var b := Join(byarray[i], byarray[i + 1]);
      b := ShiftWord(b, value[i], shift);
      byarray := byarray[i := Lo(b)][i + 1 := Hi(b)];
    }
    r := Ok(byarray);
  }

  /** The tail of setbitbytes: the low rem bits of value[c] written from bit
      `shift` of byte c, into a byte pair when they straddle. */
  method WriteTailBytes(buf: seq<byte>, value: seq<byte>, shift: bv8, rem: bv8, c: nat) returns (r: Result<seq<byte>>)
    requires shift < 8 && rem < 8
    ensures r == WriteTail(buf, value, shift, rem, c)
  {
    var byarray := buf;
    if rem != 0 {
      if c >= |value| {
        return Err(IndexError);
      }
      if shift as int + rem as int > 8 {
        if c + 1 >= |byarray| {
          return Err(IndexError);
        }
        var b := Join(byarray[c], byarray[c + 1]);
        b := MaskedWord(b, value[c], shift, rem);
        byarray := byarray[c := Lo(b)][c + 1 := Hi(b)];
      } else {
        if c >= |byarray| {
          return Err(IndexError);
        }
        byarray := byarray[c := MaskedByte(byarray[c], value[c], shift, rem)];
      }
    }
    r := Ok(byarray);
  }

  // ---------------------------------------------------------------------
  // What a store followed by a load gives back

  /** Inside the region, _getbytes returns what setbytes stored. */
  lemma StoreThenLoad(mem: seq<byte>, byteoffset: nat, value: seq<byte>)
    requires byteoffset + |value| <= |mem|
    ensures Clamped(StoreBytes(mem, byteoffset, value), byteoffset, |value|) == value
  {
  }

  /** A store leaves the bytes outside the stored run as they were. */
  lemma StoreKeepsOthers(mem: seq<byte>, byteoffset: int, value: seq<byte>, k: nat)
    requires k < |mem| && !(0 <= byteoffset <= k < byteoffset + |value|)
    ensures StoreBytes(mem, byteoffset, value)[k] == mem[k]
  {
  }

  /** setbit(bitoffset, v): the bit reads back as v and its mask bit as
      set, every other data and mask bit is kept, and the header records the
      one byte; outside the region the header is kept too. */
  lemma BitSetEffect(s: Snapshot, bitoffset: int, v: bool, p: int)
    requires |s.mask| == |s.data|
    ensures var r := BitSet(s, bitoffset, v);
      var inside := 0 <= bitoffset / 8 < |s.data|;
      && GetBitOf(r.data, p) == (if p == bitoffset && inside then v else GetBitOf(s.data, p))
      && GetBitOf(r.mask, p) == (if p == bitoffset && inside then true else GetBitOf(s.mask, p))
      && r.header == if inside then Merge(s.header, bitoffset / 8, 1) else s.header
  {
    SetBitThenGet(s.data, bitoffset, v, p);
    SetBitThenGet(s.mask, bitoffset, true, p);
  }

  /** getbytestring after setbytestring, inside the region, gives the
      string's bytes back in either byte order. */
  lemma ByteStringRoundTrip(mem: seq<byte>, byteoffset: nat, value: seq<byte>, order: ByteOrder)
    requires byteoffset + |value| <= |mem|
    ensures StringBytes(Clamped(StoreBytes(mem, byteoffset, StringBytes(value, order)), byteoffset, |value|), order)
         == value
  {
    StoreThenLoad(mem, byteoffset, StringBytes(value, order));
    StringBytesInvolution(value, order);
  }

  /** getbitstring after setbitstring, inside the region, gives the
      string's bytes back in either byte order. */
  lemma BitStringRoundTrip(mem: seq<byte>, bitoffset: nat, value: seq<byte>, order: ByteOrder)
    requires bitoffset + 8 * |value| <= 8 * |mem|
    ensures WriteBits(mem, bitoffset, 8 * |value|, StringBytes(value, order)).Ok?
    ensures var w := WriteBits(mem, bitoffset, 8 * |value|, StringBytes(value, order)).value;
      var x := ReadBits(w, bitoffset, 8 * |value|);
      x.Ok? && StringBytes(x.value, order) == value
  {
    var b := StringBytes(value, order);
    assert |b| == |value|;
    WriteThenReadWhole(mem, bitoffset, b);
    StringBytesInvolution(value, order);
  }
}
