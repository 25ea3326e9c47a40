/** The device: _MbDevice. It reads the device control block, attaches
    the python block and the four regions, keeps a table from region kind to
    region, locates the exception-status byte, and serves the typed
    accessors by looking the address's kind up in that table. */
module Device {
  import opened Exceptions
  import opened Bytes
  import opened Codec
  import opened Tracker
  import opened Region
  import BitRegion
  import RegRegion

  // ---------------------------------------------------------------------
  // Addresses and the region table

  /** The region kind of a parsed address: the four Modbus tables, or a kind
      the device's table does not hold. */
  datatype MemoryType = Memory0x | Memory1x | Memory3x | Memory4x | MemoryUnknown

  /** A parsed modbus.Address: its type() and its offset(). */
  datatype Address = Address(kind: MemoryType, offset: int)

  /** What the four regions hold. */
  datatype Regions = Regions(m0x: Snapshot, m1x: Snapshot, m3x: Snapshot, m4x: Snapshot)

  /** The item counts and orders the four regions were built with. */
  datatype RegionLayout = RegionLayout(count0x: nat, count1x: nat, count3x: nat, count4x: nat,
                                       order: ByteOrder, regorder: int)

  /** Each region's count fits its planes: bits for the coil and discrete
      input regions, registers for the other two. */
  predicate Fitted(L: RegionLayout, st: Regions)
  {
    && L.count0x <= 8 * |st.m0x.data| && L.count1x <= 8 * |st.m1x.data|
    && 2 * L.count3x <= |st.m3x.data| && 2 * L.count4x <= |st.m4x.data|
  }

  /** The region _memdict holds for a kind. */
  function At(st: Regions, k: MemoryType): Snapshot
    requires k != MemoryUnknown
  {
    match k
    case Memory0x => st.m0x
    case Memory1x => st.m1x
    case Memory3x => st.m3x
    case Memory4x => st.m4x
  }

  /** Whether a typed accessor of width w at adr passes its region's range
      guard. */
  predicate InRangeAt(L: RegionLayout, st: Regions, adr: Address, w: Width)
  {
    match adr.kind
    case Memory0x => BitRegion.InRange(L.count0x, adr.offset, w)
    case Memory1x => BitRegion.InRange(L.count1x, adr.offset, w)
    case Memory3x => RegRegion.InRange(|st.m3x.data|, L.count3x, adr.offset, w)
    case Memory4x => RegRegion.InRange(|st.m4x.data|, L.count4x, adr.offset, w)
    case MemoryUnknown => false
  }

  /** getint8 … getuint64(adr): the addressed region's getter at the
      address's offset, or KeyError for a kind the table does not hold. */
  function GetIntAt(L: RegionLayout, st: Regions, adr: Address, w: Width, signed: bool): (r: Result<int>)
    requires Fitted(L, st)
    ensures adr.kind == MemoryUnknown <==> r == Err(KeyError)
    ensures adr.kind != MemoryUnknown && !InRangeAt(L, st, adr, w) ==> r == Ok(0)
    ensures adr.kind != MemoryUnknown ==> r.Ok? && Fits(r.value, Size(w), signed)
  {
    match adr.kind
    case Memory0x =>
      BitsGetOk(st.m0x.data, L.count0x, adr.offset, w, signed, L.order, L.regorder);
      BitRegion.GetIntOf(st.m0x.data, L.count0x, adr.offset, w, signed, L.order, L.regorder)
    case Memory1x =>
      BitsGetOk(st.m1x.data, L.count1x, adr.offset, w, signed, L.order, L.regorder);
      BitRegion.GetIntOf(st.m1x.data, L.count1x, adr.offset, w, signed, L.order, L.regorder)
    case Memory3x => Ok(RegRegion.GetIntOf(st.m3x.data, L.count3x, adr.offset, w, signed, L.order, L.regorder))
    case Memory4x => Ok(RegRegion.GetIntOf(st.m4x.data, L.count4x, adr.offset, w, signed, L.order, L.regorder))
    case MemoryUnknown => Err(KeyError)
  }

  /** A bit region's getter never raises: in range it reads a value that
      fits, out of range it gives 0. */
  lemma BitsGetOk(data: seq<byte>, count: nat, bitoffset: int, w: Width, signed: bool,
                  order: ByteOrder, regorder: int)
    requires count <= 8 * |data|
    ensures var r := BitRegion.GetIntOf(data, count, bitoffset, w, signed, order, regorder);
      r.Ok? && Fits(r.value, Size(w), signed)
  {
    if BitRegion.InRange(count, bitoffset, w) {
      BitRegion.GetIntInRange(data, count, bitoffset, w, signed, order, regorder);
    } else {
      FitsZero(Size(w), signed);
    }
  }

  /** Zero fits every width. */
  lemma FitsZero(n: nat, signed: bool)
    requires n >= 1
    ensures Fits(0, n, signed)
  {
  }

  /** The regions after one region is replaced, with its result. */
  function Replaced(st: Regions, k: MemoryType, s: Result<Snapshot>): (r: Result<Regions>)
    requires k != MemoryUnknown
    ensures s.Err? ==> r == Err(s.error)
    ensures s.Ok? ==> r.Ok? && At(r.value, k) == s.value
    ensures r.Ok? ==> forall j :: j != MemoryUnknown && j != k ==> At(r.value, j) == At(st, j)
  {
    if s.Err? then Err(s.error)
    else
      match k
      case Memory0x => Ok(st.(m0x := s.value))
      case Memory1x => Ok(st.(m1x := s.value))
      case Memory3x => Ok(st.(m3x := s.value))
      case Memory4x => Ok(st.(m4x := s.value))
  }

  /** setint8 … setuint64(adr, v): the addressed region's setter, or
      KeyError. Only the addressed region can change, and a store outside
      the region's range changes nothing. */
  function SetIntAt(L: RegionLayout, st: Regions, adr: Address, w: Width, signed: bool, v: int): (r: Result<Regions>)
    requires Fitted(L, st)
    ensures adr.kind == MemoryUnknown ==> r == Err(KeyError)
    ensures adr.kind != MemoryUnknown && !InRangeAt(L, st, adr, w) ==> r == Ok(st)
    ensures r.Ok? ==> Fitted(L, r.value)
    ensures r.Ok? ==> forall j :: j != MemoryUnknown && j != adr.kind ==> At(r.value, j) == At(st, j)
  {
    match adr.kind
    case Memory0x => Replaced(st, Memory0x, BitRegion.SetIntIn(st.m0x, L.count0x, adr.offset, w, signed, L.order, L.regorder, v))
    case Memory1x => Replaced(st, Memory1x, BitRegion.SetIntIn(st.m1x, L.count1x, adr.offset, w, signed, L.order, L.regorder, v))
    case Memory3x => Replaced(st, Memory3x, RegRegion.SetIntIn(st.m3x, L.count3x, adr.offset, w, signed, L.order, L.regorder, v))
    case Memory4x => Replaced(st, Memory4x, RegRegion.SetIntIn(st.m4x, L.count4x, adr.offset, w, signed, L.order, L.regorder, v))
    case MemoryUnknown => Err(KeyError)
  }

  /** setstring(adr, value): the bit regions' setbitstring at the bit
      offset, the register regions' setregstring at the register offset,
      or KeyError. Only the addressed region can change. */
  function SetStringAt(L: RegionLayout, st: Regions, adr: Address, value: seq<byte>): (r: Result<Regions>)
    ensures adr.kind == MemoryUnknown ==> r == Err(KeyError)
    ensures r.Ok? ==> forall j :: j != MemoryUnknown && j != adr.kind ==> At(r.value, j) == At(st, j)
  {
    var b := StringBytes(value, L.order);
    match adr.kind
    case Memory0x => Replaced(st, Memory0x, BitsStored(st.m0x, adr.offset, |b| * 8, b))
    case Memory1x => Replaced(st, Memory1x, BitsStored(st.m1x, adr.offset, |b| * 8, b))
    case Memory3x => Replaced(st, Memory3x, Ok(Stored(st.m3x, adr.offset * 2, b)))
    case Memory4x => Replaced(st, Memory4x, Ok(Stored(st.m4x, adr.offset * 2, b)))
    case MemoryUnknown => Err(KeyError)
  }

  /** Through the table, a value that fits stored in range reads back as
      itself, whatever region holds it. */
  lemma SetThenGetIntAt(L: RegionLayout, st: Regions, adr: Address, w: Width, signed: bool, v: int)
    requires Fitted(L, st) && InRangeAt(L, st, adr, w) && Fits(v, Size(w), signed)
    ensures SetIntAt(L, st, adr, w, signed, v).Ok?
    ensures GetIntAt(L, SetIntAt(L, st, adr, w, signed, v).value, adr, w, signed) == Ok(v)
  {
    match adr.kind
    case Memory0x => BitRegion.SetThenGetInt(st.m0x, L.count0x, adr.offset, w, signed, L.order, L.regorder, v);
    case Memory1x => BitRegion.SetThenGetInt(st.m1x, L.count1x, adr.offset, w, signed, L.order, L.regorder, v);
    case Memory3x => RegRegion.SetThenGetInt(st.m3x, L.count3x, adr.offset, w, signed, L.order, L.regorder, v);
    case Memory4x => RegRegion.SetThenGetInt(st.m4x, L.count4x, adr.offset, w, signed, L.order, L.regorder, v);
  }

  /** A store through one address leaves every value read through an
      address of another region as it was. */
  lemma SetIntAtKeepsOtherRegions(L: RegionLayout, st: Regions, adr: Address, w: Width, signed: bool, v: int,
                                  other: Address, w2: Width, signed2: bool)
    requires Fitted(L, st) && SetIntAt(L, st, adr, w, signed, v).Ok?
    requires other.kind != adr.kind
    ensures GetIntAt(L, SetIntAt(L, st, adr, w, signed, v).value, other, w2, signed2)
            == GetIntAt(L, st, other, w2, signed2)
  {
    var t := SetIntAt(L, st, adr, w, signed, v).value;
    if other.kind != MemoryUnknown {
      assert At(t, other.kind) == At(st, other.kind);
    }
  }

  // ---------------------------------------------------------------------
  // The exception-status byte

  /** Where the exception-status byte lives: the address exceptionStatusRef
      parses to when the table holds its kind, otherwise offset 0 of the
      coil region. */
  function ExcStatusAddress(ref: Address): (r: Address)
    ensures r.kind != MemoryUnknown
    ensures ref.kind != MemoryUnknown <==> r == ref
    ensures ref.kind == MemoryUnknown ==> r == Address(Memory0x, 0)
  {
    if ref.kind == MemoryUnknown then Address(Memory0x, 0) else ref
  }

  // ---------------------------------------------------------------------
  // The device control segment

  /** sizeof(CDeviceBlock): eleven 4-byte fields. The string table starts
      right after it. */
  const ControlSize: nat := 44

  /** The c_uint field number k of the control block. */
  function Field(control: seq<byte>, k: nat): (r: nat)
    requires 4 * k + 4 <= |control|
    ensures r < U32
  {
    assert Pow256(4) == U32;
    Unsigned(control[4 * k .. 4 * k + 4])
  }

  /** The c_int field number k of the control block. */
  function IntField(control: seq<byte>, k: nat): (r: int)
    requires 4 * k + 4 <= |control|
    ensures -0x8000_0000 <= r < 0x8000_0000
    ensures r % U32 == Field(control, k)
  {
    Signed(Field(control, k), 4, true)
  }

  /** Whether a NUL byte lies at or after index i. */
  predicate Terminated(m: seq<byte>, i: nat)
  {
    exists k :: i <= k < |m| && m[k] == 0
  }

  /** The NUL-terminated string starting at index i, without its NUL. */
  function CString(m: seq<byte>, i: nat): (s: seq<byte>)
    requires Terminated(m, i)
    ensures i + |s| < |m| && m[i + |s|] == 0
    ensures s == m[i .. i + |s|]
    ensures forall k :: 0 <= k < |s| ==> s[k] != 0
    decreases |m| - i
  {
    if m[i] == 0 then [] else [m[i]] + CString(m, i + 1)
  }

  /** A NUL-free run ending at a NUL is the string CString reads there. */
  lemma {:induction false} CStringUnique(m: seq<byte>, i: nat, t: seq<byte>)
    requires i + |t| < |m| && m[i + |t|] == 0 && t == m[i .. i + |t|]
    requires forall k :: 0 <= k < |t| ==> t[k] != 0
    ensures Terminated(m, i) && CString(m, i) == t
  {
    assert m[i + |t|] == 0;
    var s := CString(m, i);
  }

  /** getmemdump(offset, size) over the control segment m: None from the
      end of the segment on; otherwise the bytes from offset, as many as
      asked for (all when size is None) but never past the end; a negative
      size makes a ctypes array type of negative length, a ValueError. */
  function MemDump(m: seq<byte>, offset: nat, size: Option<int>): (r: Result<Option<seq<byte>>>)
    ensures r == Ok(None) <==> offset >= |m|
    ensures r.Err? <==> offset < |m| && size.Some? && size.value < 0
    ensures r.Err? ==> r.error == ValueError
    ensures r.Ok? && r.value.Some? ==>
      var b := r.value.value;
      && offset + |b| <= |m| && b == m[offset .. offset + |b|]
      && |b| == if size.None? then |m| - offset else Min(size.value, |m| - offset)
  {
    if offset >= |m| then Ok(None)
    else
      var c := if size.None? then |m| else size.value;
      var c := if offset + c > |m| then |m| - offset else c;
      if c < 0 then Err(ValueError) else Ok(Some(m[offset .. offset + c]))
  }

  /** Two adjacent dumps put together are the dump of both lengths. */
  lemma MemDumpSplit(m: seq<byte>, offset: nat, n1: nat, n2: nat)
    requires offset + n1 < |m|
    ensures var a, b, ab := MemDump(m, offset, Some(n1)), MemDump(m, offset + n1, Some(n2)),
                           MemDump(m, offset, Some(n1 + n2));
      a.Ok? && a.value.Some? && b.Ok? && b.value.Some? && ab.Ok? && ab.value.Some?
      && ab.value.value == a.value.value + b.value.value
  {
    var a := MemDump(m, offset, Some(n1)).value.value;
    var b := MemDump(m, offset + n1, Some(n2)).value.value;
    var ab := MemDump(m, offset, Some(n1 + n2)).value.value;
    assert |ab| == |a| + |b|;
    assert ab == m[offset .. offset + |ab|];
    assert a + b == m[offset .. offset + |a| + |b|];
  }

  /** The whole dump is the whole segment. */
  lemma MemDumpWhole(m: seq<byte>)
    requires |m| > 0
    ensures MemDump(m, 0, None) == Ok(Some(m))
  {
    assert m[0 .. |m|] == m;
  }

  /** The planes and header of an attached region segment. */
  datatype Segment = Segment(size: nat, contents: seq<byte>, maskContents: seq<byte>, head: Header)

  predicate SegmentOk(seg: Segment)
  {
    seg.size <= |seg.contents| && seg.size <= |seg.maskContents| && ValidHeader(seg.head)
  }

  /** What a region attached to seg holds: the first n bytes of each plane
      and the header. */
  function Attached(seg: Segment, n: nat): (s: Snapshot)
    requires SegmentOk(seg) && n <= seg.size
    ensures |s.data| == |s.mask| == n
  {
    Snapshot(seg.contents[..n], seg.maskContents[..n], seg.head)
  }

  /** A bit region attached to seg for `count` bits with the given orders:
      (count + 7) // 8 bytes cut at the segment size, its count cut at
      8 * countbytes, its planes the segment's first countbytes bytes. */
  predicate BitsAttached(b: BitRegion.BitsBlock, seg: Segment, count: nat, order: int, regorder: int)
    reads b, b.block, b.block.data, b.block.mask
  {
    && SegmentOk(seg) && b.Valid() && b.block.countbytes == Min((count + 7) / 8, seg.size)
    && b.count == Min(count, 8 * b.block.countbytes)
    && b.block.Snap() == Attached(seg, b.block.countbytes)
    && b.block.byteorder == NormalizeByteOrder(IntArg(order)) && b.block.registerorder == regorder
  }

  /** A register region attached to seg for `count` registers: 2 * count
      bytes cut at the segment size. */
  predicate RegsAttached(b: RegRegion.RegsBlock, seg: Segment, count: nat, order: int, regorder: int)
    reads b, b.block, b.block.data, b.block.mask
  {
    && SegmentOk(seg) && b.Valid() && b.block.countbytes == Min(2 * count, seg.size)
    && b.count == Min(count, b.block.countbytes / 2)
    && b.block.Snap() == Attached(seg, b.block.countbytes)
    && b.block.byteorder == NormalizeByteOrder(IntArg(order)) && b.block.registerorder == regorder
  }

  /** _MemoryBlockBits(shmid, count, id, byteorder, registerorder). */
  method AttachBits(seg: Segment, count: nat, id: int, order: int, regorder: int)
    returns (b: BitRegion.BitsBlock)
    requires SegmentOk(seg)
    ensures fresh(b) && fresh(b.block) && fresh(b.block.data) && fresh(b.block.mask)
    ensures BitsAttached(b, seg, count, order, regorder)
  {
    b := new BitRegion.BitsBlock(seg.size, count, id, IntArg(order), regorder,
                                 seg.contents, seg.maskContents, seg.head);
  }

  /** _MemoryBlockRegs(shmid, count, id, byteorder, registerorder). */
  method AttachRegs(seg: Segment, count: nat, id: int, order: int, regorder: int)
    returns (b: RegRegion.RegsBlock)
    requires SegmentOk(seg)
    ensures fresh(b) && fresh(b.block) && fresh(b.block.data) && fresh(b.block.mask)
    ensures RegsAttached(b, seg, count, order, regorder)
  {
    b := new RegRegion.RegsBlock(seg.size, count, id, IntArg(order), regorder,
                                 seg.contents, seg.maskContents, seg.head);
  }

  /** The four regions of a device, attached in turn. */
  method AttachRegions(seg0x: Segment, seg1x: Segment, seg3x: Segment, seg4x: Segment,
                       count0x: nat, count1x: nat, count3x: nat, count4x: nat, order: int, regorder: int)
    returns (m0: BitRegion.BitsBlock, m1: BitRegion.BitsBlock, m3: RegRegion.RegsBlock, m4: RegRegion.RegsBlock)
    requires SegmentOk(seg0x) && SegmentOk(seg1x) && SegmentOk(seg3x) && SegmentOk(seg4x)
    ensures fresh(m0) && fresh(m1) && fresh(m3) && fresh(m4)
    ensures BitsAttached(m0, seg0x, count0x, order, regorder) && BitsAttached(m1, seg1x, count1x, order, regorder)
    ensures RegsAttached(m3, seg3x, count3x, order, regorder) && RegsAttached(m4, seg4x, count4x, order, regorder)
    ensures Apart(m0.block, m1.block) && Apart(m0.block, m3.block) && Apart(m0.block, m4.block)
    ensures Apart(m1.block, m3.block) && Apart(m1.block, m4.block) && Apart(m3.block, m4.block)
  {
    m0 := AttachBits(seg0x, count0x, 0, order, regorder);
    m1 := AttachBits(seg1x, count1x, 1, order, regorder);
    m3 := AttachRegs(seg3x, count3x, 3, order, regorder);
    m4 := AttachRegs(seg4x, count4x, 4, order, regorder);
  }

  // ---------------------------------------------------------------------
  // The python block

  /** _MemoryPythonBlock: the script's own cycle counter and the shared
      pycycle field it publishes it to. */
  class PythonBlock {
    /** _cyclecounter, a Python int. */
    var cyclecounter: int
    /** The c_uint field pycycle. */
    var pycycle: nat

    predicate Valid()
      reads this
    {
      cyclecounter >= 0 && pycycle < U32
    }

    constructor (pycycle: nat)
      requires pycycle < U32
      ensures Valid() && cyclecounter == 0 && this.pycycle == pycycle
    {
      cyclecounter := 0;
      this.pycycle := pycycle;
    }

    /** incpycycle: bump the counter and publish it, truncated to 32 bits. */
    method IncPyCycle()
      requires Valid()
      modifies this
      ensures Valid()
      ensures cyclecounter == old(cyclecounter) + 1
      ensures pycycle == cyclecounter % U32
    {
      cyclecounter := cyclecounter + 1;
      pycycle := U(cyclecounter);
    }
  }

  // ---------------------------------------------------------------------
  // The device

  /** Two region buffers share no object. */
  predicate Apart(a: MemoryBlock, b: MemoryBlock)
  {
    a != b && a.data != b.data && a.data != b.mask && a.mask != b.data && a.mask != b.mask
  }

  class MbDevice {
    /** The device segment: the control block followed by the string table.
        The script never writes it. */
    const segment: seq<byte>
    const python: PythonBlock
    const mem0x: BitRegion.BitsBlock
    const mem1x: BitRegion.BitsBlock
    const mem3x: RegRegion.RegsBlock
    const mem4x: RegRegion.RegsBlock
    /** The byteOrder and registerOrder codes of the control block. */
    const byteorder: int
    const registerorder: int
    /** _excmem's kind and _excoffset. */
    const excAddress: Address
    /** The device name, read from the string table. */
    const name: seq<byte>

    /** Every object a store into a region may change. */
    ghost function Footprint(): set<object>
    {
      {mem0x.block, mem0x.block.data, mem0x.block.mask, mem1x.block, mem1x.block.data, mem1x.block.mask,
       mem3x.block, mem3x.block.data, mem3x.block.mask, mem4x.block, mem4x.block.data, mem4x.block.mask}
    }

    predicate Valid()
      reads this, mem0x, mem1x, mem3x, mem4x, mem0x.block, mem1x.block, mem3x.block, mem4x.block
    {
      && mem0x.Valid() && mem1x.Valid() && mem3x.Valid() && mem4x.Valid()
      && Apart(mem0x.block, mem1x.block) && Apart(mem0x.block, mem3x.block) && Apart(mem0x.block, mem4x.block)
      && Apart(mem1x.block, mem3x.block) && Apart(mem1x.block, mem4x.block) && Apart(mem3x.block, mem4x.block)
      && mem0x.block.byteorder == mem1x.block.byteorder == mem3x.block.byteorder == mem4x.block.byteorder
         == NormalizeByteOrder(IntArg(byteorder))
      && mem0x.block.registerorder == mem1x.block.registerorder == mem3x.block.registerorder
         == mem4x.block.registerorder == registerorder
      && excAddress.kind != MemoryUnknown
    }

    /** The counts and orders of the four regions. */
    function Layout(): RegionLayout
    {
      RegionLayout(mem0x.count, mem1x.count, mem3x.count, mem4x.count,
                    NormalizeByteOrder(IntArg(byteorder)), registerorder)
    }

    /** What the four regions hold now. */
    function State(): (st: Regions)
      reads this, mem0x, mem1x, mem3x, mem4x, mem0x.block, mem1x.block, mem3x.block, mem4x.block
      reads mem0x.block.data, mem0x.block.mask, mem1x.block.data, mem1x.block.mask
      reads mem3x.block.data, mem3x.block.mask, mem4x.block.data, mem4x.block.mask
      requires Valid()
      ensures Fitted(Layout(), st)
    {
      Regions(mem0x.block.Snap(), mem1x.block.Snap(), mem3x.block.Snap(), mem4x.block.Snap())
    }

    /** Attaches to the device segment `control`, the python segment whose
        pycycle field holds `pycycle`, and the four region segments;
        `excstatus` is what exceptionStatusRef parses to. */
    constructor (control: seq<byte>, pycycle: nat, seg0x: Segment, seg1x: Segment,
                 seg3x: Segment, seg4x: Segment, excstatus: Address)
      requires |control| >= ControlSize && Terminated(control, ControlSize + Field(control, 9))
      requires pycycle < U32
      requires SegmentOk(seg0x) && SegmentOk(seg1x) && SegmentOk(seg3x) && SegmentOk(seg4x)
      ensures Valid() && python.Valid()
      ensures segment == control && python.pycycle == pycycle && python.cyclecounter == 0
      ensures byteorder == IntField(control, 7) && registerorder == IntField(control, 8)
      ensures mem0x.block.countbytes == Min((Field(control, 2) + 7) / 8, seg0x.size)
      ensures mem1x.block.countbytes == Min((Field(control, 3) + 7) / 8, seg1x.size)
      ensures mem3x.block.countbytes == Min(2 * Field(control, 4), seg3x.size)
      ensures mem4x.block.countbytes == Min(2 * Field(control, 5), seg4x.size)
      ensures Layout() == RegionLayout(
        Min(Field(control, 2), 8 * mem0x.block.countbytes), Min(Field(control, 3), 8 * mem1x.block.countbytes),
        Min(Field(control, 4), mem3x.block.countbytes / 2), Min(Field(control, 5), mem4x.block.countbytes / 2),
        NormalizeByteOrder(IntArg(byteorder)), registerorder)
      ensures State() == Regions(
        Attached(seg0x, mem0x.block.countbytes), Attached(seg1x, mem1x.block.countbytes),
        Attached(seg3x, mem3x.block.countbytes), Attached(seg4x, mem4x.block.countbytes))
      ensures excAddress == ExcStatusAddress(excstatus)
      ensures name == CString(control, ControlSize + Field(control, 9))
    {
      segment := control;
      var order := IntField(control, 7);
      var regorder := IntField(control, 8);
      byteorder := order;
      registerorder := regorder;
      python := new PythonBlock(pycycle);
      var m0, m1, m3, m4 := AttachRegions(seg0x, seg1x, seg3x, seg4x, Field(control, 2), Field(control, 3),
                                          Field(control, 4), Field(control, 5), order, regorder);
      mem0x, mem1x, mem3x, mem4x := m0, m1, m3, m4;
      excAddress := ExcStatusAddress(excstatus);
      name := CString(control, ControlSize + Field(control, 9));
    }

    /** _getstring(offset): count the bytes of the string table from offset
        up to the first NUL, then take them. */
    method GetString(offset: nat) returns (s: seq<byte>)
      requires Terminated(segment, ControlSize + offset)
      ensures s == CString(segment, ControlSize + offset)
    {
      var table, base := segment, ControlSize + offset;
      var c := 0;
      while table[base + c] != 0
        invariant Terminated(table, base + c)
        invariant forall k :: base <= k < base + c ==> table[k] != 0
        decreases |table| - (base + c)
      {
        var k :| base + c <= k < |table| && table[k] == 0;
        assert k != base + c;
        c := c + 1;
      }
      s := table[base .. base + c];
      CStringUnique(table, base, s);
    }

    /** getmemdump(offset, size). */
    method GetMemDump(offset: nat, size: Option<int>) returns (r: Result<Option<seq<byte>>>)
      ensures r == MemDump(segment, offset, size)
    {
      var sz := |segment|;
      if offset >= sz {
        return Ok(None);
      }
      var c := sz;
      if size.Some? {
        c := size.value;
      }
      if offset + c > sz {
        c := sz - offset;
      }
      if c < 0 {
        return Err(ValueError);
      }
      r := Ok(Some(segment[offset .. offset + c]));
    }

    /** getint8 … getuint64(adr). */
    method GetInt(adr: Address, w: Width, signed: bool) returns (r: Result<int>)
      requires Valid()
      ensures r == GetIntAt(Layout(), State(), adr, w, signed)
    {
      match adr.kind
      case Memory0x => r := mem0x.GetInt(adr.offset, w, signed);
      case Memory1x => r := mem1x.GetInt(adr.offset, w, signed);
      case Memory3x => var v := mem3x.GetInt(adr.offset, w, signed); r := Ok(v);
      case Memory4x => var v := mem4x.GetInt(adr.offset, w, signed); r := Ok(v);
      case MemoryUnknown => r := Err(KeyError);
    }

    /** setint8 … setuint64(adr, value). */
    method SetInt(adr: Address, w: Width, signed: bool, value: int) returns (r: Result<()>)
      requires Valid()
      modifies Footprint()
      ensures Valid()
      ensures var s := SetIntAt(Layout(), old(State()), adr, w, signed, value);
        if s.Err? then r == Err(s.error) && State() == old(State())
        else r == Ok(()) && State() == s.value
    {
      match adr.kind
      case Memory0x => r := mem0x.SetInt(adr.offset, w, signed, value);
      case Memory1x => r := mem1x.SetInt(adr.offset, w, signed, value);
      case Memory3x => r := mem3x.SetInt(adr.offset, w, signed, value);
      case Memory4x => r := mem4x.SetInt(adr.offset, w, signed, value);
      case MemoryUnknown => r := Err(KeyError);
    }

    /** setstring(adr, value). */
    method SetString(adr: Address, value: seq<byte>) returns (r: Result<()>)
      requires Valid()
      modifies Footprint()
      ensures Valid()
      ensures var s := SetStringAt(Layout(), old(State()), adr, value);
        if s.Err? then r == Err(s.error) && State() == old(State())
        else r == Ok(()) && State() == s.value
    {
      match adr.kind
      case Memory0x => r := mem0x.SetString(adr.offset, value);
      case Memory1x => r := mem1x.SetString(adr.offset, value);
      case Memory3x => mem3x.SetString(adr.offset, value); r := Ok(());
      case Memory4x => mem4x.SetString(adr.offset, value); r := Ok(());
      case MemoryUnknown => r := Err(KeyError);
    }

    /** getexcstatus: getuint8 at the exception-status address, which never
        raises. */
    method GetExcStatus() returns (v: int)
      requires Valid()
      ensures GetIntAt(Layout(), State(), excAddress, W8, false) == Ok(v)
      ensures 0 <= v < 256
    {
      var r := GetInt(excAddress, W8, false);
      v := r.value;
    }

    /** setexcstatus(value): setuint8 at the exception-status address. */
    method SetExcStatus(value: int) returns (r: Result<()>)
      requires Valid()
      modifies Footprint()
      ensures Valid()
      ensures var s := SetIntAt(Layout(), old(State()), excAddress, W8, false, value);
        if s.Err? then r == Err(s.error) && State() == old(State())
        else r == Ok(()) && State() == s.value
    {
      r := SetInt(excAddress, W8, false, value);
    }

    /** _incpycycle. */
    method IncPyCycle()
      requires python.Valid()
      modifies python
      ensures python.Valid()
      ensures python.cyclecounter == old(python.cyclecounter) + 1
      ensures python.pycycle == python.cyclecounter % U32
    {
      python.IncPyCycle();
    }
  }
}
