/** The bit-run codec of a memory region: reading `bitcount` bits that start
    at an arbitrary bit offset into whole bytes (getbitbytearray) and writing
    them back (setbitbytes). Bit p of a region is bit p % 8 of byte p / 8.

    The functions here are the specifications the region methods are proved
    against; each follows the source step by step, index errors included. */
module BitPacker {
  import opened Exceptions
  import opened Bytes

  // ---------------------------------------------------------------------
  // Clamped byte access (_getbytes / setbytes on a buffer)

  /** The bytes `_getbytes(off, count)` returns from a region holding mem:
      the run from `off`, cut at the region's end, or nothing when `off` is
      outside the region. */
  function Clamped(mem: seq<byte>, off: int, count: nat): (r: seq<byte>)
    ensures 0 <= off < |mem| ==> |r| == Min(count, |mem| - off)
    ensures 0 <= off < |mem| ==> forall k :: 0 <= k < |r| ==> r[k] == mem[off + k]
    ensures !(0 <= off < |mem|) ==> r == []
  {
    if 0 <= off < |mem| then
      var c := if off + count > |mem| then |mem| - off else count;
      mem[off..off + c]
    else
      []
  }

  /** `_getbytes(off, count)` for any count: inside the region a negative
      count makes the ctypes array type of that length raise ValueError;
      outside it nothing is read, whatever the count. */
  function GetBytesOf(mem: seq<byte>, off: int, count: int): (r: Result<seq<byte>>)
    ensures r.Err? <==> 0 <= off < |mem| && count < 0
    ensures r.Err? ==> r.error == ValueError
    ensures r.Ok? ==> r.value == Clamped(mem, off, if count < 0 then 0 else count)
  {
    if 0 <= off < |mem| && count < 0 then Err(ValueError)
    else Ok(Clamped(mem, off, if count < 0 then 0 else count))
  }

  /** Python's s[i] on a byte string: a negative i counts from the end. */
  function PyAt(s: seq<byte>, i: int): (r: Result<byte>)
    ensures r.Ok? <==> -|s| <= i < |s|
    ensures r.Err? ==> r.error == IndexError
  {
    if 0 <= i < |s| then Ok(s[i]) else if -|s| <= i < 0 then Ok(s[|s| + i]) else Err(IndexError)
  }

  /** How many bytes `setbytes(off, value)` copies: all of value, cut at the
      region's end; none when `off` is outside the region. */
  function StoreCount(size: nat, off: int, n: nat): (c: nat)
    ensures 0 <= off < size ==> c == Min(n, size - off) && off + c <= size
    ensures !(0 <= off < size) ==> c == 0
  {
    if 0 <= off < size then (if off + n > size then size - off else n) else 0
  }

  /** The buffer after `setbytes(off, value)`: the first StoreCount bytes of
      value copied in at off, everything else kept. */
  function StoreBytes(mem: seq<byte>, off: int, value: seq<byte>): (r: seq<byte>)
    ensures |r| == |mem|
    ensures forall k :: 0 <= k < |mem| ==>
      r[k] == if 0 <= off <= k < off + StoreCount(|mem|, off, |value|) then value[k - off] else mem[k]
  {
    if 0 <= off < |mem| then Overwrite(mem, off, value[..StoreCount(|mem|, off, |value|)]) else mem
  }

  /** The number of bytes from byte bitoffset // 8 to byte
      (bitoffset + bitcount - 1) // 8, both included. */
  function CoverCount(bitoffset: int, bitcount: nat): (r: nat)
    ensures r == (bitoffset % 8 + bitcount + 7) / 8
  {
    DivMod8(bitoffset, bitoffset / 8, bitoffset % 8);
    (bitoffset + bitcount - 1) / 8 - bitoffset / 8 + 1
  }

  /** With a negative bitcount the covering count is at most 1, and it is 1
      only when the run would end inside the first byte, c = bitcount // 8
      being -1 then. */
  lemma NegativeCover(bitoffset: int, bitcount: int)
    requires bitcount < 0
    ensures var n := (bitoffset + bitcount - 1) / 8 - bitoffset / 8 + 1;
      && n <= 1
      && (n < 0 <==> bitcount < -7 - bitoffset % 8)
      && (n == 1 <==> bitcount >= 1 - bitoffset % 8)
      && (n == 1 ==> bitcount / 8 == -1 && bitoffset % 8 + bitcount % 8 > 8)
  {
    var q, s := bitoffset / 8, bitoffset % 8;
    assert bitoffset == 8 * q + s;
    assert (bitoffset + bitcount - 1) / 8 == q + (s + bitcount - 1) / 8;
  }

  /** Quotient and remainder by 8 are the unique split. */
  lemma DivMod8(x: int, q: int, d: int)
    requires 0 <= d < 8 && x == 8 * q + d
    ensures x / 8 == q && x % 8 == d
  {
  }

  /** Inside the region, all covering bytes of a bit run are present, and
      there are (shift + bitcount + 7) / 8 of them. */
  lemma CoverInside(mem: seq<byte>, bitoffset: int, bitcount: nat)
    requires 0 <= bitoffset && bitoffset + bitcount <= 8 * |mem| && 0 < bitcount
    ensures CoverCount(bitoffset, bitcount) == (bitoffset % 8 + bitcount + 7) / 8
    ensures bitoffset % 8 + bitcount <= 8 * CoverCount(bitoffset, bitcount) < bitoffset % 8 + bitcount + 8
    ensures bitoffset == 8 * (bitoffset / 8) + bitoffset % 8
    ensures |Clamped(mem, bitoffset / 8, CoverCount(bitoffset, bitcount))| == CoverCount(bitoffset, bitcount)
    ensures Clamped(mem, bitoffset / 8, CoverCount(bitoffset, bitcount))
         == mem[bitoffset / 8..bitoffset / 8 + CoverCount(bitoffset, bitcount)]
  {
    var q, s := bitoffset / 8, bitoffset % 8;
    assert bitoffset == 8 * q + s;
    assert (bitoffset + bitcount - 1) / 8 == q + (s + bitcount - 1) / 8;
    var t := s + bitcount + 7;
    assert t == 8 * (t / 8) + t % 8;
  }

  // ---------------------------------------------------------------------
  // Bit indices: a bit index is a bv8 below 8; positions are integers

  lemma IndexSum(j: bv8, s: bv8)
    requires j < 8 && s < 8
    ensures (j + s < 8) == (j as int + s as int < 8)
    ensures j + s < 8 ==> (j + s) as int == j as int + s as int
    ensures j + s >= 8 ==> (j + s - 8) as int == j as int + s as int - 8
  {
  }

  lemma IndexRange(j: bv8, s: bv8, w: bv8)
    requires j < 8 && s < 8 && w <= 8
    ensures (s <= j < s + w) == (s as int <= j as int < s as int + w as int)
    ensures s <= j ==> (j - s) as int == j as int - s as int
    ensures (j + 8 < s + w) == (j as int + 8 < s as int + w as int)
    ensures (j + 8 - s) as int == j as int + 8 - s as int
  {
  }

  // ---------------------------------------------------------------------
  // Bit-vector steps of the two loops

  /** The realigned byte of the read loop, ((b2 << (8 - shift)) | (b1 >> shift)) & 0xFF:
      the bits of b1 from `shift` on, followed by the low bits of b2. */
  function Combine(b1: byte, b2: byte, shift: bv8): byte
    requires 0 < shift < 8
  {
    (b2 << (8 - shift)) | (b1 >> shift)
  }

  lemma CombineBits(b1: byte, b2: byte, shift: bv8, j: bv8)
    requires 0 < shift < 8 && j < 8
    ensures BitAt(Combine(b1, b2, shift), j)
         == if j + shift < 8 then BitAt(b1, j + shift) else BitAt(b2, j + shift - 8)
  {
    if shift == 0 {} else if shift == 1 {} else if shift == 2 {} else if shift == 3 {}
    else if shift == 4 {} else if shift == 5 {} else if shift == 6 {} else {}
  }

  /** The mask of the rem low bits, built as the source builds it:
      m = 1 << (rem - 1); m |= m - 1. */
  function LowMask(rem: bv8): byte
    requires 1 <= rem <= 8
  {
    var m: byte := 1 << (rem - 1);
    m | (m - 1)
  }

  lemma ShiftMaskBits(b: byte, shift: bv8, rem: bv8, j: bv8)
    requires shift < 8 && 1 <= rem <= 8 && shift as int + rem as int <= 8 && j < 8
    ensures BitAt((b >> shift) & LowMask(rem), j) == (j < rem && j + shift < 8 && BitAt(b, j + shift))
  {
    if shift == 0 {} else if shift == 1 {} else if shift == 2 {} else if shift == 3 {}
    else if shift == 4 {} else if shift == 5 {} else if shift == 6 {} else {}
  }

  lemma MaskBits(b: byte, rem: bv8, j: bv8)
    requires 1 <= rem <= 8 && j < 8
    ensures BitAt(b & LowMask(rem), j) == (j as int < rem as int && BitAt(b, j))
  {
    if rem == 1 {} else if rem == 2 {} else if rem == 3 {}
    else if rem == 4 {} else if rem == 5 {} else if rem == 6 {} else if rem == 7 {} else {}
  }

  /** int.from_bytes([lo, hi], 'little'), a 16-bit word. */
  function Join(lo: byte, hi: byte): bv16
  {
    (hi as bv16 << 8) | lo as bv16
  }

  /** The two bytes of w.to_bytes(2, 'little'). */
  function Lo(w: bv16): byte
  {
    (w & 0xFF) as byte
  }

  function Hi(w: bv16): byte
  {
    (w >> 8) as byte
  }

  /** One step of the write loop: in a two-byte word, the eight bits from
      `shift` on replaced by v (b &= ~(0xFF << shift); b |= v << shift). */
  function ShiftWord(w: bv16, v: byte, shift: bv8): bv16
    requires shift < 8
  {
    (w & !(0xFF << shift)) | ((v as bv16) << shift)
  }

  /** The tail write across two bytes: the rem bits from `shift` on replaced
      by the low rem bits of v (mask = LowMask(rem) << shift;
      b &= ~mask; b |= (v << shift) & mask). */
  function MaskedWord(w: bv16, v: byte, shift: bv8, rem: bv8): bv16
    requires shift < 8 && 1 <= rem <= 8
  {
    var mask: bv16 := (LowMask(rem) as bv16) << shift;
    (w & !mask) | (((v as bv16) << shift) & mask)
  }

  /** The tail write inside one byte, for shift + rem <= 8. */
  function MaskedByte(b: byte, v: byte, shift: bv8, rem: bv8): byte
    requires shift < 8 && 1 <= rem <= 8 && shift + rem <= 8
  {
    var mask: byte := LowMask(rem) << shift;
    (b & !mask) | ((v << shift) & mask)
  }

  /** The loop step is the tail write of a full byte. */
  lemma ShiftWordMasked(w: bv16, v: byte, shift: bv8)
    requires shift < 8
    ensures ShiftWord(w, v, shift) == MaskedWord(w, v, shift, 8)
  {
    if shift == 0 {} else if shift == 1 {} else if shift == 2 {} else if shift == 3 {}
    else if shift == 4 {} else if shift == 5 {} else if shift == 6 {} else {}
  }

  lemma MaskedWordLo(lo: byte, hi: byte, v: byte, shift: bv8, rem: bv8, j: bv8)
    requires shift < 8 && 1 <= rem <= 8 && j < 8
    ensures BitAt(Lo(MaskedWord(Join(lo, hi), v, shift, rem)), j)
         == if shift <= j < shift + rem then BitAt(v, j - shift) else BitAt(lo, j)
  {
    if shift == 0 {} else if shift == 1 {} else if shift == 2 {} else if shift == 3 {}
    else if shift == 4 {} else if shift == 5 {} else if shift == 6 {} else {}
  }

  lemma MaskedWordHi(lo: byte, hi: byte, v: byte, shift: bv8, rem: bv8, j: bv8)
    requires shift < 8 && 1 <= rem <= 8 && j < 8
    ensures BitAt(Hi(MaskedWord(Join(lo, hi), v, shift, rem)), j)
         == if j + 8 < shift + rem then BitAt(v, j + 8 - shift) else BitAt(hi, j)
  {
    if shift == 0 {} else if shift == 1 {} else if shift == 2 {} else if shift == 3 {}
    else if shift == 4 {} else if shift == 5 {} else if shift == 6 {} else {}
  }

  lemma MaskedByteBits(b: byte, v: byte, shift: bv8, rem: bv8, j: bv8)
    requires shift < 8 && 1 <= rem <= 8 && shift + rem <= 8 && j < 8
    ensures BitAt(MaskedByte(b, v, shift, rem), j)
         == if shift <= j < shift + rem then BitAt(v, j - shift) else BitAt(b, j)
  {
    if shift == 0 {} else if shift == 1 {} else if shift == 2 {} else if shift == 3 {}
    else if shift == 4 {} else if shift == 5 {} else if shift == 6 {} else {}
  }

  // ---------------------------------------------------------------------
  // Reading a bit run (getbitbytearray)

  /** The buffer after the read loop: every byte but the last is rebuilt
      from itself and its successor, shifted down by `shift`. */
  function Realign(raw: seq<byte>, shift: bv8): (r: seq<byte>)
    requires 0 < shift < 8
    ensures |r| == |raw|
    ensures 0 < |raw| ==> r[|raw| - 1] == raw[|raw| - 1]
  {
    seq(|raw|, i requires 0 <= i < |raw| =>
      if i < |raw| - 1 then Combine(raw[i], raw[i + 1], shift) else raw[i])
  }

  lemma RealignByteBit(raw: seq<byte>, shift: bv8, i: nat, j: bv8)
    requires 0 < shift < 8 && i + 1 < |raw| && j < 8
    ensures BitAt(Realign(raw, shift)[i], j)
         == if j + shift < 8 then BitAt(raw[i], j + shift) else BitAt(raw[i + 1], j + shift - 8)
  {
    assert Realign(raw, shift)[i] == Combine(raw[i], raw[i + 1], shift);
    CombineBits(raw[i], raw[i + 1], shift, j);
  }

  /** A byte whose bit j is bit j + shift of the bytes of raw from index i on
      holds bit 8 * i + j + shift of raw. */
  lemma ShiftedBit(b: byte, raw: seq<byte>, shift: bv8, i: nat, j: bv8)
    requires shift < 8 && j < 8 && 8 * i + j as int + shift as int < 8 * |raw|
    requires j + shift < 8 ==> BitAt(b, j) == BitAt(raw[i], j + shift)
    requires j + shift >= 8 ==> i + 1 < |raw| && BitAt(b, j) == BitAt(raw[i + 1], j + shift - 8)
    ensures BitAt(b, j) == Bit(raw, 8 * i + j as int + shift as int)
  {
    IndexSum(j, shift);
    if j + shift < 8 {
      BitAtPos(raw, 8 * i + j as int + shift as int, i, j + shift);
    } else {
      BitAtPos(raw, 8 * i + j as int + shift as int, i + 1, j + shift - 8);
    }
  }

  /** A rebuilt byte holds the bits of raw starting `shift` bits later. */
  lemma RealignBit(raw: seq<byte>, shift: bv8, i: nat, j: bv8)
    requires 0 < shift < 8 && i + 1 < |raw| && j < 8
    ensures BitAt(Realign(raw, shift)[i], j) == Bit(raw, 8 * i + j as int + shift as int)
  {
    RealignByteBit(raw, shift, i, j);
    ShiftedBit(Realign(raw, shift)[i], raw, shift, i, j);
  }

  /** A byte whose bit j is bit j + shift of raw[i], for j below rem, and
      clear from rem on, holds bit 8 * i + j + shift of raw below rem. */
  lemma MaskedShiftedBit(b: byte, raw: seq<byte>, shift: bv8, rem: bv8, i: nat, j: bv8)
    requires shift < 8 && 1 <= rem && shift as int + rem as int <= 8 && i < |raw| && j < 8
    requires BitAt(b, j) == (j < rem && j + shift < 8 && BitAt(raw[i], j + shift))
    ensures BitAt(b, j) == (j as int < rem as int && Bit(raw, 8 * i + j as int + shift as int))
  {
    IndexSum(j, shift);
    if j < rem {
      BitAtPos(raw, 8 * i + j as int + shift as int, i, j + shift);
    }
  }

  /** The tail byte of a run that ends in the byte it starts in: shifted
      down and masked to its rem bits. */
  lemma TailBit(raw: seq<byte>, shift: bv8, rem: bv8, i: nat, j: bv8)
    requires shift < 8 && 1 <= rem < 8 && shift as int + rem as int <= 8 && i < |raw| && j < 8
    ensures BitAt((raw[i] >> shift) & LowMask(rem), j)
         == (j as int < rem as int && Bit(raw, 8 * i + j as int + shift as int))
  {
    ShiftMaskBits(raw[i], shift, rem, j);
    MaskedShiftedBit((raw[i] >> shift) & LowMask(rem), raw, shift, rem, i, j);
  }

  /** The buffer after `del s[k]`. */
  function DeleteAt(s: seq<byte>, k: nat): (r: seq<byte>)
    requires k < |s|
    ensures |r| == |s| - 1
    ensures forall i :: 0 <= i < k ==> r[i] == s[i]
    ensures forall i :: k <= i < |r| ==> r[i] == s[i + 1]
  {
    s[..k] + s[k + 1..]
  }

  /** The buffer after the read loop, which runs only when shift is not 0. */
  function Realigned(raw: seq<byte>, shift: bv8): (r: seq<byte>)
    requires shift < 8
    ensures |r| == |raw|
    ensures 0 < |raw| ==> r[|raw| - 1] == raw[|raw| - 1]
  {
    if shift != 0 then Realign(raw, shift) else raw
  }

  lemma RealignedBit(raw: seq<byte>, shift: bv8, i: nat, j: bv8)
    requires shift < 8 && j < 8 && i < |raw| && (shift != 0 ==> i + 1 < |raw|)
    ensures BitAt(Realigned(raw, shift)[i], j) == Bit(raw, 8 * i + j as int + shift as int)
  {
    if shift != 0 {
      RealignBit(raw, shift, i, j);
    } else {
      BitAtPos(raw, 8 * i + j as int, i, j);
    }
  }

  /** The end of getbitbytearray as written, on the realigned bytes a: byte
      ri shifted down and masked to its rem bits when rem is not 0
      (IndexError when there is no such byte), the byte after it dropped.
      Bytes before ri are kept, and the tail byte has no bit at or above
      rem. */
  function TrimWritten(a: seq<byte>, shift: bv8, rem: bv8, ri: int): (r: Result<seq<byte>>)
    requires shift < 8 && rem < 8 && ri >= -1 && (rem != 0 ==> ri >= 0)
    ensures r.Err? <==> rem != 0 && ri >= |a|
    ensures r.Err? ==> r.error == IndexError
    ensures r.Ok? ==> |r.value| == if |a| > ri + 1 then |a| - 1 else |a|
    ensures r.Ok? ==> forall k :: 0 <= k < ri && k < |a| ==> r.value[k] == a[k]
    ensures r.Ok? && rem != 0 ==> r.value[ri] >> rem == 0
  {
    if rem != 0 && ri >= |a| then Err(IndexError)
    else Ok(DropAfter(if rem != 0 then a[ri := (a[ri] >> shift) & LowMask(rem)] else a, ri))
  }

  /** getbitbytearray's processing of the covering bytes raw with the tail
      shift applied only to a byte the loop did not rebuild: a rebuilt byte
      already starts at bit `shift` and is only masked. */
  function AlignedFixed(raw: seq<byte>, shift: bv8, rem: bv8, ri: int): Result<seq<byte>>
    requires shift < 8 && rem < 8 && ri >= -1 && (rem != 0 ==> ri >= 0)
  {
    TrimTail(Realigned(raw, shift), shift, rem, ri)
  }

  /** The corrected read after the loop: byte ri of the realigned bytes a
      masked (IndexError when there is no such byte), the byte after it
      dropped. */
  function TrimTail(a: seq<byte>, shift: bv8, rem: bv8, ri: int): (r: Result<seq<byte>>)
    requires shift < 8 && rem < 8 && ri >= -1 && (rem != 0 ==> ri >= 0)
    ensures r.Err? <==> rem != 0 && ri >= |a|
    ensures r.Err? ==> r.error == IndexError
    ensures r.Ok? ==> |r.value| == if |a| > ri + 1 then |a| - 1 else |a|
  {
    if rem != 0 && ri >= |a| then Err(IndexError)
    else Ok(DropAfter(MaskTail(a, shift, rem, ri), ri))
  }

  /** The corrected tail step on the realigned bytes a: byte ri masked to
      its rem bits, shifted down first unless the loop already rebuilt it. */
  function MaskTail(a: seq<byte>, shift: bv8, rem: bv8, ri: int): (b: seq<byte>)
    requires shift < 8 && rem < 8 && (rem != 0 ==> 0 <= ri < |a|)
    ensures |b| == |a|
  {
    if rem == 0 then a
    else if shift != 0 && ri < |a| - 1 then a[ri := a[ri] & LowMask(rem)]
    else a[ri := (a[ri] >> shift) & LowMask(rem)]
  }

  /** del b[ri + 1] when there is such a byte. */
  function DropAfter(b: seq<byte>, ri: int): seq<byte>
    requires ri >= -1
  {
    if |b| > ri + 1 then DeleteAt(b, ri + 1) else b
  }

  /** getbitbytearray with a negative bitcount. The covering run then has at
      most one byte: a negative bytecount inside the region raises ValueError
      in _getbytes; an empty run raises IndexError, at byarray[ri] when rem
      is not 0 and at del byarray[ri + 1] when it is (ri + 1 < 0); a
      one-byte run has that byte masked as byarray[-1] and then deleted as
      byarray[0], which leaves nothing. */
  function ReadNegative(mem: seq<byte>, bitoffset: int, bitcount: int): (r: Result<seq<byte>>)
    requires bitcount < 0
    ensures r.Ok? <==> 0 <= bitoffset / 8 < |mem| && bitcount >= 1 - bitoffset % 8
    ensures r.Ok? ==> r.value == []
    ensures r.Err? ==> r.error == ValueError || r.error == IndexError
  {
    NegativeCover(bitoffset, bitcount);
    var got := GetBytesOf(mem, bitoffset / 8, (bitoffset + bitcount - 1) / 8 - bitoffset / 8 + 1);
    if got.Err? then got else if got.value == [] then Err(IndexError) else Ok([])
  }

  /** getbitbytearray(bitoffset, bitcount) on a region holding mem, as
      written: it never returns more than ceil(bitcount / 8) bytes, and
      only a negative bitcount raises ValueError. */
  function ReadBits(mem: seq<byte>, bitoffset: int, bitcount: int): (r: Result<seq<byte>>)
    ensures r.Ok? ==> |r.value| <= if bitcount <= 0 then 0 else (bitcount + 7) / 8
    ensures r.Err? ==> r.error == IndexError || (r.error == ValueError && bitcount < 0)
  {
    if bitcount < 0 then ReadNegative(mem, bitoffset, bitcount) else
    var raw := Clamped(mem, bitoffset / 8, CoverCount(bitoffset, bitcount));
    CoverBound(bitoffset, bitcount);
    TrimWritten(Realigned(raw, Idx(bitoffset % 8)), Idx(bitoffset % 8), Idx(bitcount % 8), (bitcount - 1) / 8)
  }

  /** The covering bytes of a run of bitcount >= 0 bits are at most one
      more than the ri + 1 = ceil(bitcount / 8) bytes getbitbytearray keeps. */
  lemma CoverBound(bitoffset: int, bitcount: nat)
    ensures CoverCount(bitoffset, bitcount) <= (bitcount - 1) / 8 + 2
    ensures (bitcount - 1) / 8 + 1 == if bitcount == 0 then 0 else (bitcount + 7) / 8
  {
  }

  /** getbitbytearray with the tail shift corrected: the same bounds as
      ReadBits. */
  function ReadBitsFixed(mem: seq<byte>, bitoffset: int, bitcount: int): (r: Result<seq<byte>>)
    ensures r.Ok? ==> |r.value| <= if bitcount <= 0 then 0 else (bitcount + 7) / 8
    ensures r.Err? ==> r.error == IndexError || (r.error == ValueError && bitcount < 0)
  {
    if bitcount < 0 then ReadNegative(mem, bitoffset, bitcount) else
    CoverBound(bitoffset, bitcount);
    AlignedFixed(Clamped(mem, bitoffset / 8, CoverCount(bitoffset, bitcount)),
                 Idx(bitoffset % 8), Idx(bitcount % 8), (bitcount - 1) / 8)
  }

  /** r holds bits [from, from + n) of s packed from bit 0, with the unused
      high bits of its last byte clear. */
  predicate Packs(r: seq<byte>, s: seq<byte>, from: nat, n: nat)
    requires from + n <= 8 * |s|
  {
    && |r| == (n + 7) / 8
    && (forall k :: 0 <= k < n ==> Bit(r, k) == Bit(s, from + k))
    && (forall k :: n <= k < 8 * |r| ==> !Bit(r, k))
  }

  /** Packs, byte by byte. */
  lemma PacksOfBytes(r: seq<byte>, s: seq<byte>, from: nat, n: nat)
    requires from + n <= 8 * |s| && |r| == (n + 7) / 8
    requires forall i: nat, jn: nat :: i < |r| && jn < 8 ==>
      BitOf(r[i], jn) == (8 * i + jn < n && Bit(s, from + 8 * i + jn))
    ensures Packs(r, s, from, n)
  {
    forall k | 0 <= k < 8 * |r|
      ensures Bit(r, k) == (k < n && Bit(s, from + k))
    {
      assert k == 8 * (k / 8) + k % 8;
    }
  }

  /** A packing of bits of a slice raw = s[lo..hi] is a packing of the same
      bits of the whole buffer, at = 8 * lo + from. */
  lemma PacksOfSlice(r: seq<byte>, s: seq<byte>, lo: nat, hi: nat, raw: seq<byte>, from: nat, at: nat, n: nat)
    requires lo <= hi <= |s| && raw == s[lo..hi] && at == 8 * lo + from && from + n <= 8 * |raw|
    requires Packs(r, raw, from, n)
    ensures at + n <= 8 * |s|
    ensures Packs(r, s, at, n)
  {
    forall k | 0 <= k < n
      ensures Bit(r, k) == Bit(s, at + k)
    {
      var p := from + k;
      assert Bit(r, k) == Bit(raw, p);
      DivMod8(at + k, lo + p / 8, p % 8);
      assert raw[p / 8] == s[lo + p / 8];
    }
  }

  /** The bits of the last requested byte: rem, or 8 when rem is 0. */
  function TailBits(rem: bv8): int
  {
    if rem == 0 then 8 else rem as int
  }

  /** raw is the full covering run of a read with locals shift, rem and ri:
      ri + 1 bytes, one more when the tail bits spill past byte ri. */
  predicate Covers(raw: seq<byte>, shift: bv8, rem: bv8, ri: nat)
  {
    |raw| == ri + 1 + if shift as int + TailBits(rem) > 8 then 1 else 0
  }

  lemma AlignedFixedOk(raw: seq<byte>, shift: bv8, rem: bv8, ri: nat)
    requires shift < 8 && rem < 8 && Covers(raw, shift, rem, ri)
    ensures AlignedFixed(raw, shift, rem, ri).Ok?
    ensures |AlignedFixed(raw, shift, rem, ri).value| == ri + 1
  {
  }

  /** A rebuilt tail byte, masked, holds the bits of raw from `shift` on
      below rem. */
  lemma MaskedRealignBit(raw: seq<byte>, shift: bv8, rem: bv8, i: nat, j: bv8)
    requires 0 < shift < 8 && 1 <= rem <= 8 && i + 1 < |raw| && j < 8
    ensures BitAt(Realign(raw, shift)[i] & LowMask(rem), j)
         == (j as int < rem as int && Bit(raw, 8 * i + j as int + shift as int))
  {
    MaskBits(Realign(raw, shift)[i], rem, j);
    RealignBit(raw, shift, i, j);
  }

  /** Bit j of byte i of the corrected read r of a full covering run. */
  lemma AlignedFixedByte(raw: seq<byte>, shift: bv8, rem: bv8, ri: nat, r: seq<byte>, i: nat, j: bv8)
    requires shift < 8 && rem < 8 && Covers(raw, shift, rem, ri)
    requires AlignedFixed(raw, shift, rem, ri) == Ok(r)
    requires i <= ri && j < 8
    ensures i < |r|
    ensures BitAt(r[i], j) == (j as int < TailBits(rem) + 8 * (ri - i) && Bit(raw, 8 * i + j as int + shift as int))
  {
    if i < ri || rem == 0 {
      assert r[i] == Realigned(raw, shift)[i];
      RealignedBit(raw, shift, i, j);
    } else if shift != 0 && ri + 1 < |raw| {
      assert r[i] == Realign(raw, shift)[i] & LowMask(rem);
      MaskedRealignBit(raw, shift, rem, i, j);
    } else {
      assert r[i] == (raw[i] >> shift) & LowMask(rem);
      TailBit(raw, shift, rem, i, j);
    }
  }

  /** AlignedFixedByte with integer bit indices. */
  lemma AlignedFixedBitOf(raw: seq<byte>, sh: bv8, rm: bv8, ri: nat, r: seq<byte>, shift: nat, bitcount: nat, i: nat, jn: nat)
    requires sh < 8 && rm < 8 && Covers(raw, sh, rm, ri) && AlignedFixed(raw, sh, rm, ri) == Ok(r)
    requires shift == sh as int && bitcount == 8 * ri + TailBits(rm) && i < |r| && |r| == ri + 1 && jn < 8
    ensures BitOf(r[i], jn) == (8 * i + jn < bitcount && Bit(raw, shift + 8 * i + jn))
  {
    IdxVal(jn);
    BitOfAt(r[i], Idx(jn));
    AlignedFixedByte(raw, sh, rm, ri, r, i, Idx(jn));
  }

  /** The corrected read packs exactly the requested bits. */
  lemma AlignedFixedPacks(raw: seq<byte>, shift: nat, bitcount: nat)
    requires shift < 8 && 0 < bitcount && |raw| == (shift + bitcount + 7) / 8
    ensures AlignedFixed(raw, Idx(shift), Idx(bitcount % 8), (bitcount - 1) / 8).Ok?
    ensures Packs(AlignedFixed(raw, Idx(shift), Idx(bitcount % 8), (bitcount - 1) / 8).value,
                  raw, shift, bitcount)
  {
    var sh, rm, ri := Idx(shift), Idx(bitcount % 8), (bitcount - 1) / 8;
    IdxVal(shift);
    IdxVal(bitcount % 8);
    assert bitcount == 8 * ri + TailBits(rm);
    assert Covers(raw, sh, rm, ri);
    AlignedFixedOk(raw, sh, rm, ri);
    var r := AlignedFixed(raw, sh, rm, ri).value;
    forall i: nat, jn: nat | i < |r| && jn < 8
      ensures BitOf(r[i], jn) == (8 * i + jn < bitcount && Bit(raw, shift + 8 * i + jn))
    {
      AlignedFixedBitOf(raw, sh, rm, ri, r, shift, bitcount, i, jn);
    }
    PacksOfBytes(r, raw, shift, bitcount);
  }

  /** Where the tail byte is not a rebuilt one — whole bytes read, or a run
      that ends inside the byte it starts in — the read as written agrees
      with the corrected one. */
  lemma AlignedAgrees(raw: seq<byte>, shift: bv8, rem: bv8, ri: nat)
    requires shift < 8 && rem < 8 && |raw| <= ri + 1 + if shift as int + TailBits(rem) > 8 then 1 else 0
    requires rem == 0 || shift as int + rem as int <= 8
    ensures TrimWritten(Realigned(raw, shift), shift, rem, ri) == AlignedFixed(raw, shift, rem, ri)
  {
  }

  /** Inside the region, the corrected read packs bits
      [bitoffset, bitoffset + bitcount) of mem. */
  lemma ReadBitsFixedPacks(mem: seq<byte>, bitoffset: int, bitcount: nat)
    requires 0 <= bitoffset && 0 < bitcount && bitoffset + bitcount <= 8 * |mem|
    ensures ReadBitsFixed(mem, bitoffset, bitcount).Ok?
    ensures Packs(ReadBitsFixed(mem, bitoffset, bitcount).value, mem, bitoffset, bitcount)
  {
    var q, c := bitoffset / 8, CoverCount(bitoffset, bitcount);
    CoverInside(mem, bitoffset, bitcount);
    var raw := Clamped(mem, q, c);
    AlignedFixedPacks(raw, bitoffset % 8, bitcount);
    var r := AlignedFixed(raw, Idx(bitoffset % 8), Idx(bitcount % 8), (bitcount - 1) / 8).value;
    PacksOfSlice(r, mem, q, q + c, raw, bitoffset % 8, bitoffset, bitcount);
  }

  /** A read of whole bytes, or of a run that ends inside the byte it
      starts in, packs the requested bits even as written. */
  lemma ReadBitsPacks(mem: seq<byte>, bitoffset: int, bitcount: nat)
    requires 0 <= bitoffset && 0 < bitcount && bitoffset + bitcount <= 8 * |mem|
    requires bitcount % 8 == 0 || bitoffset % 8 + bitcount % 8 <= 8
    ensures ReadBits(mem, bitoffset, bitcount).Ok?
    ensures Packs(ReadBits(mem, bitoffset, bitcount).value, mem, bitoffset, bitcount)
  {
    var rm, ri := Idx(bitcount % 8), (bitcount - 1) / 8;
    IdxVal(bitoffset % 8);
    IdxVal(bitcount % 8);
    assert bitcount == 8 * ri + TailBits(rm);
    CoverInside(mem, bitoffset, bitcount);
    AlignedAgrees(Clamped(mem, bitoffset / 8, CoverCount(bitoffset, bitcount)), Idx(bitoffset % 8), rm, ri);
    ReadBitsFixedPacks(mem, bitoffset, bitcount);
  }

  /** A straddling tail byte is shifted twice: the six bits from bit 4 of
      F0 03 are all ones, but the read as written returns 03. */
  lemma ReadBitsStraddle()
    ensures ReadBits([0xF0, 0x03], 4, 6) == Ok([0x03])
    ensures ReadBitsFixed([0xF0, 0x03], 4, 6) == Ok([0x3F])
  {
    var raw: seq<byte> := [0xF0, 0x03];
    assert CoverCount(4, 6) == 2;
    assert Clamped(raw, 4 / 8, CoverCount(4, 6)) == raw;
    assert Idx(4 % 8) == 4 && Idx(6 % 8) == 6 && (6 - 1) / 8 == 0;
    var a := Realigned(raw, 4);
    assert a[0] == Combine(0xF0, 0x03, 4) == 0x3F;
    assert a[1] == 0x03;
    assert LowMask(6) == 0x3F;
    assert (a[0] >> 4) & LowMask(6) == 0x03;
    assert a[0] & LowMask(6) == 0x3F;
    assert DeleteAt(a[0 := 0x03], 1) == [0x03];
    assert DeleteAt(a[0 := 0x3F], 1) == [0x3F];
    assert ReadBits(raw, 4, 6) == TrimWritten(a, 4, 6, 0);
    assert ReadBitsFixed(raw, 4, 6) == AlignedFixed(raw, 4, 6, 0);
  }

  /** Whole bytes are read alike as written and corrected. */
  lemma ReadBitsWhole(mem: seq<byte>, bitoffset: int, bitcount: int)
    requires bitcount % 8 == 0
    ensures ReadBits(mem, bitoffset, bitcount) == ReadBitsFixed(mem, bitoffset, bitcount)
  {
  }

  /** A negative bitcount: ValueError when the run starts inside the region
      and its covering count is negative, nothing when it would end inside
      its first byte, IndexError otherwise; corrected or not. */
  lemma ReadBitsNegative(mem: seq<byte>, bitoffset: int, bitcount: int)
    requires bitcount < 0
    ensures ReadBits(mem, bitoffset, bitcount) == ReadBitsFixed(mem, bitoffset, bitcount)
    ensures var inside := 0 <= bitoffset / 8 < |mem|;
      ReadBits(mem, bitoffset, bitcount)
        == if inside && bitcount < -7 - bitoffset % 8 then Err(ValueError)
           else if inside && bitcount >= 1 - bitoffset % 8 then Ok([])
           else Err(IndexError)
  {
    NegativeCover(bitoffset, bitcount);
  }

  /** Two packings of the same bits are the same bytes. */
  lemma PacksUnique(r1: seq<byte>, r2: seq<byte>, s: seq<byte>, from: nat, n: nat)
    requires from + n <= 8 * |s| && Packs(r1, s, from, n) && Packs(r2, s, from, n)
    ensures r1 == r2
  {
    forall p | 0 <= p < 8 * |r1|
      ensures Bit(r1, p) == Bit(r2, p)
    {
      if p < n {
        assert Bit(r1, p) == Bit(s, from + p) == Bit(r2, p);
      } else {
        assert !Bit(r1, p) && !Bit(r2, p);
      }
    }
    BitsExtensional(r1, r2);
  }

  // ---------------------------------------------------------------------
  // Writing a bit run (setbitbytes)

  /** byarray[k], byarray[k + 1] = w.to_bytes(2, 'little'). */
  function SetWord(buf: seq<byte>, k: nat, w: bv16): (r: seq<byte>)
    requires k + 1 < |buf|
    ensures |r| == |buf|
    ensures r[k] == Lo(w) && r[k + 1] == Hi(w)
    ensures forall i :: 0 <= i < |buf| && i != k && i != k + 1 ==> r[i] == buf[i]
  {
    buf[k := Lo(w)][k + 1 := Hi(w)]
  }

  /** The write loop of setbitbytes from iteration i on, when shift is not
      0: byte i of value goes into bits shift .. shift + 7 of the word made
      of bytes i and i + 1. value[i] or byarray[i + 1] past the end raises,
      so the loop fails exactly when value has fewer than c bytes or the
      buffer fewer than c + 1; bytes outside i .. c are kept. */
  function ShiftLoop(buf: seq<byte>, value: seq<byte>, shift: bv8, i: nat, c: nat): (r: Result<seq<byte>>)
    requires 0 < shift < 8
    ensures r.Ok? ==> |r.value| == |buf|
    ensures r.Err? <==> i < c && (|value| < c || |buf| <= c)
    ensures r.Err? ==> r.error == IndexError
    ensures r.Ok? ==> forall k :: 0 <= k < |buf| && (k < i || c < k) ==> r.value[k] == buf[k]
    decreases c - i
  {
    if i >= c then Ok(buf)
    else if i >= |value| || i + 1 >= |buf| then Err(IndexError)
    else ShiftLoop(SetWord(buf, i, ShiftWord(Join(buf[i], buf[i + 1]), value[i], shift)), value, shift, i + 1, c)
  }

  /** byarray[0:c] = value[0:c]: a slice assignment, which replaces the
      first min(c, len(byarray)) bytes by the first min(c, len(value)) bytes
      of value and so can change the length. */
  function SliceAssign(buf: seq<byte>, c: nat, value: seq<byte>): (r: seq<byte>)
    ensures |r| == Min(c, |value|) + |buf| - Min(c, |buf|)
    ensures forall k :: 0 <= k < Min(c, |value|) ==> r[k] == value[k]
    ensures forall k :: Min(c, |buf|) <= k < |buf| ==> r[k - Min(c, |buf|) + Min(c, |value|)] == buf[k]
  {
    value[..Min(c, |value|)] + buf[Min(c, |buf|)..]
  }

  /** The tail write of setbitbytes: when rem is not 0, the low rem bits of
      value[c] go into the bits from `shift` on of byte c, spilling into
      byte c + 1 when shift + rem > 8. It raises exactly when value[c] or
      one of those bytes is missing, and keeps every other byte. */
  function WriteTail(buf: seq<byte>, value: seq<byte>, shift: bv8, rem: bv8, c: nat): (r: Result<seq<byte>>)
    requires shift < 8 && rem < 8
    ensures r.Ok? ==> |r.value| == |buf|
    ensures r.Err? <==> rem != 0 && (c >= |value| || c + (if shift as int + rem as int > 8 then 1 else 0) >= |buf|)
    ensures r.Err? ==> r.error == IndexError
    ensures r.Ok? ==> forall k :: 0 <= k < |buf| && k != c && k != c + 1 ==> r.value[k] == buf[k]
  {
    if rem == 0 then Ok(buf)
    else if c >= |value| then Err(IndexError)
    else if shift as int + rem as int > 8 then
      if c + 1 >= |buf| then Err(IndexError)
      else Ok(SetWord(buf, c, MaskedWord(Join(buf[c], buf[c + 1]), value[c], shift, rem)))
    else if c >= |buf| then Err(IndexError)
    else Ok(buf[c := MaskedByte(buf[c], value[c], shift, rem)])
  }

  /** setbitbytes' processing of the covering bytes once its locals
      shift = bitoffset % 8, c = bitcount // 8 and rem = bitcount % 8 are set.
      Only IndexError is raised; an aligned write of whole bytes never
      raises, however short value is, while any other write needs every
      value byte it reads. */
  function Rewrite(raw: seq<byte>, value: seq<byte>, shift: bv8, rem: bv8, c: nat): (r: Result<seq<byte>>)
    requires shift < 8 && rem < 8
    ensures r.Err? ==> r.error == IndexError
    ensures shift == 0 && rem == 0 ==> r.Ok?
    ensures (shift != 0 && |value| < c) || (rem != 0 && |value| <= c) ==> r.Err?
    ensures r.Ok? && shift != 0 ==> |r.value| == |raw|
  {
    var a := if shift != 0 then ShiftLoop(raw, value, shift, 0, c)
             else if c > 0 then Ok(SliceAssign(raw, c, value))
             else Ok(raw);
    if a.Err? then a else WriteTail(a.value, value, shift, rem, c)
  }

  /** setbitbytes' processing of the covering bytes buf when c = bitcount // 8
      is negative: the shifting loop runs range(c), that is not at all, and
      the tail indexes from the end. buf has at most one byte, and c is -1
      when it has one, so byarray[c] and byarray[c + 1] both name that byte
      and the later store, of the high byte, wins. */
  function NegativeTail(buf: seq<byte>, value: seq<byte>, shift: bv8, rem: bv8, c: int): (r: Result<seq<byte>>)
    requires shift < 8 && rem < 8 && c < 0 && |buf| <= 1 && (|buf| == 1 ==> c == -1)
    ensures r.Ok? ==> |r.value| == |buf|
    ensures r.Err? <==> rem != 0 && (|buf| == 0 || |value| < -c)
    ensures r.Err? ==> r.error == IndexError
  {
    if rem == 0 then Ok(buf)
    else
      var v := PyAt(value, c);
      if v.Err? || |buf| == 0 then Err(IndexError)
      else if shift + rem > 8 then Ok([Hi(MaskedWord(Join(buf[0], buf[0]), v.value, shift, rem))])
      else Ok([MaskedByte(buf[0], v.value, shift, rem)])
  }

  /** RewriteRun for a negative bitcount: _getbytes' ValueError, or the
      tail step on what it returned: at most one byte, and ValueError
      exactly when the run starts inside and its covering count is negative. */
  function RewriteNegative(mem: seq<byte>, bitoffset: int, bitcount: int, value: seq<byte>): (r: Result<seq<byte>>)
    requires bitcount < 0
    ensures r.Ok? ==> |r.value| <= 1
    ensures r.Err? ==> r.error == ValueError || r.error == IndexError
    ensures r.Err? && r.error == ValueError <==> 0 <= bitoffset / 8 < |mem| && bitcount < -7 - bitoffset % 8
  {
    NegativeCover(bitoffset, bitcount);
    var got := GetBytesOf(mem, bitoffset / 8, (bitoffset + bitcount - 1) / 8 - bitoffset / 8 + 1);
    if got.Err? then got
    else NegativeTail(got.value, value, Idx(bitoffset % 8), Idx(bitcount % 8), bitcount / 8)
  }

  /** The buffer after setbitbytes(bitoffset, bitcount, value) on a region
      holding mem: the covering bytes rewritten, then stored back with
      setbytes. */
  function WriteBits(mem: seq<byte>, bitoffset: int, bitcount: int, value: seq<byte>): (r: Result<seq<byte>>)
    ensures r.Ok? ==> |r.value| == |mem|
  {
    var buf := RewriteRun(mem, bitoffset, bitcount, value);
    if buf.Err? then Err(buf.error) else Ok(StoreBytes(mem, bitoffset / 8, buf.value))
  }

  /** The covering bytes setbitbytes hands to setbytes, or the error it
      raises first: ValueError only for a negative bitcount, and nothing at
      all for an aligned write of whole bytes. */
  function RewriteRun(mem: seq<byte>, bitoffset: int, bitcount: int, value: seq<byte>): (r: Result<seq<byte>>)
    ensures r.Err? ==> r.error == IndexError || (r.error == ValueError && bitcount < 0)
    ensures 0 <= bitcount && bitoffset % 8 == 0 && bitcount % 8 == 0 ==> r.Ok?
  {
    if bitcount < 0 then RewriteNegative(mem, bitoffset, bitcount, value) else
    Rewrite(Clamped(mem, bitoffset / 8, CoverCount(bitoffset, bitcount)), value,
            Idx(bitoffset % 8), Idx(bitcount % 8), bitcount / 8)
  }

  /** A negative bitcount: ValueError when the run starts inside the region
      and its covering count is negative; the region unchanged when
      bitcount is a multiple of 8; IndexError when value[bitcount // 8] or
      the covering byte is missing; otherwise the covering byte of a run
      that would end inside it gets the high byte of its masked pair. */
  lemma WriteBitsNegative(mem: seq<byte>, bitoffset: int, bitcount: int, value: seq<byte>)
    requires bitcount < 0
    ensures var inside := 0 <= bitoffset / 8 < |mem|;
      var s, rem := bitoffset % 8, bitcount % 8;
      WriteBits(mem, bitoffset, bitcount, value)
        == if inside && bitcount < -7 - s then Err(ValueError)
           else if rem == 0 then Ok(mem)
           else if |value| < -(bitcount / 8) || !inside || bitcount < 1 - s then Err(IndexError)
           else Ok(mem[bitoffset / 8 := Hi(MaskedWord(Join(mem[bitoffset / 8], mem[bitoffset / 8]),
                                                      value[|value| - 1], Idx(s), Idx(rem)))])
  {
    var q := bitoffset / 8;
    var run := RewriteNegativeCases(mem, bitoffset, bitcount, value);
    assert WriteBits(mem, bitoffset, bitcount, value)
        == if run.Err? then Err(run.error) else Ok(StoreBytes(mem, q, run.value));
    if run.Ok? {
      if run.value == [] {
        assert StoreBytes(mem, q, []) == mem;
      } else {
        assert StoreCount(|mem|, q, 1) == 1;
        assert StoreBytes(mem, q, run.value) == mem[q := run.value[0]];
      }
    }
  }

  /** getbitbytearray(0, -1) raises IndexError, and setbitbytes(3, -1, FF)
      on a zero byte stores 03 there. */
  lemma NegativeExamples()
    ensures ReadBits([0x00], 0, -1) == Err(IndexError)
    ensures WriteBits([0x00], 3, -1, [0xFF]) == Ok([0x03])
  {
    ReadBitsNegative([0x00], 0, -1);
    WriteBitsNegative([0x00], 3, -1, [0xFF]);
    assert -1 % 8 == 7 && -1 / 8 == -1 && 3 % 8 == 3 && 3 / 8 == 0;
    assert Idx(3) == 3 && Idx(7) == 7;
    assert Hi(MaskedWord(Join(0x00, 0x00), 0xFF, 3, 7)) == 0x03;
    var zero: seq<byte> := [0x00];
    assert zero[0 := 0x03] == [0x03];
  }

  /** The covering bytes setbitbytes stores for a negative bitcount. */
  lemma RewriteNegativeCases(mem: seq<byte>, bitoffset: int, bitcount: int, value: seq<byte>)
    returns (run: Result<seq<byte>>)
    requires bitcount < 0
    ensures run == RewriteRun(mem, bitoffset, bitcount, value)
    ensures var inside := 0 <= bitoffset / 8 < |mem|;
      var s, rem := bitoffset % 8, bitcount % 8;
      run == if inside && bitcount < -7 - s then Err(ValueError)
             else if rem == 0 then Ok([])
             else if |value| < -(bitcount / 8) || !inside || bitcount < 1 - s then Err(IndexError)
             else Ok([Hi(MaskedWord(Join(mem[bitoffset / 8], mem[bitoffset / 8]),
                                    value[|value| - 1], Idx(s), Idx(rem)))])
  {
    NegativeCover(bitoffset, bitcount);
    var q, n := bitoffset / 8, (bitoffset + bitcount - 1) / 8 - bitoffset / 8 + 1;
    var got := GetBytesOf(mem, q, n);
    run := RewriteNegative(mem, bitoffset, bitcount, value);
    if 0 <= q < |mem| && n < 0 {
      assert got == Err(ValueError);
    } else if 0 <= q < |mem| && n == 1 {
      NegativeTailOne(mem, q, got.value, value, bitoffset, bitcount);
    } else {
      NegativeTailNone(value, bitoffset, bitcount);
    }
  }

  /** The empty-run case of RewriteNegativeCases. */
  lemma NegativeTailNone(value: seq<byte>, bitoffset: int, bitcount: int)
    requires bitcount < 0
    ensures NegativeTail([], value, Idx(bitoffset % 8), Idx(bitcount % 8), bitcount / 8)
         == if bitcount % 8 == 0 then Ok([]) else Err(IndexError)
  {
    IdxVal(bitcount % 8);
  }

  /** The one-byte case of RewriteNegativeCases. */
  lemma NegativeTailOne(mem: seq<byte>, q: int, buf: seq<byte>, value: seq<byte>, bitoffset: int, bitcount: int)
    requires bitcount < 0 && q == bitoffset / 8 && 0 <= q < |mem| && buf == [mem[q]]
    requires bitcount / 8 == -1 && bitoffset % 8 + bitcount % 8 > 8
    ensures var t := NegativeTail(buf, value, Idx(bitoffset % 8), Idx(bitcount % 8), -1);
      t == if |value| < 1 then Err(IndexError)
           else Ok([Hi(MaskedWord(Join(mem[q], mem[q]), value[|value| - 1], Idx(bitoffset % 8), Idx(bitcount % 8)))])
  {
    IdxVal(bitoffset % 8);
    IdxVal(bitcount % 8);
  }

  /** r is buf with bits [at, at + w) replaced by the low w bits of v. */
  predicate Writes(r: seq<byte>, buf: seq<byte>, v: byte, at: nat, w: nat)
    requires w <= 8 && at + w <= 8 * |buf|
  {
    && |r| == |buf|
    && forall p :: 0 <= p < 8 * |buf| ==>
         Bit(r, p) == if at <= p < at + w then BitOf(v, p - at) else Bit(buf, p)
  }

  /** r is s with bits [at, at + n) replaced by bits [0, n) of value. */
  predicate Spliced(r: seq<byte>, s: seq<byte>, value: seq<byte>, at: nat, n: nat)
    requires at + n <= 8 * |s| && n <= 8 * |value|
  {
    && |r| == |s|
    && forall p :: 0 <= p < 8 * |s| ==>
         Bit(r, p) == if at <= p < at + n then Bit(value, p - at) else Bit(s, p)
  }

  /** Bit p = 8 * i + j after a two-byte masked write at byte k. */
  lemma MaskedWordBit(buf: seq<byte>, k: nat, v: byte, shift: bv8, rem: bv8, p: nat, i: nat, j: bv8)
    requires shift < 8 && 1 <= rem <= 8 && k + 1 < |buf| && i < |buf| && j < 8 && p == 8 * i + j as int
    ensures Bit(SetWord(buf, k, MaskedWord(Join(buf[k], buf[k + 1]), v, shift, rem)), p) == if 8 * k + shift as int <= p < 8 * k + shift as int + rem as int
                         then BitOf(v, p - 8 * k - shift as int) else Bit(buf, p)
  {
    var r := SetWord(buf, k, MaskedWord(Join(buf[k], buf[k + 1]), v, shift, rem));
    BitAtPos(r, p, i, j);
    BitAtPos(buf, p, i, j);
    IndexRange(j, shift, rem);
    if i == k {
      MaskedWordLo(buf[k], buf[k + 1], v, shift, rem, j);
      if shift <= j < shift + rem {
        BitOfAt(v, j - shift);
      }
    } else if i == k + 1 {
      MaskedWordHi(buf[k], buf[k + 1], v, shift, rem, j);
      if j + 8 < shift + rem {
        BitOfAt(v, j + 8 - shift);
      }
    }
  }

  /** Bit p = 8 * i + j after a one-byte masked write at byte k. */
  lemma MaskedByteBit(buf: seq<byte>, k: nat, v: byte, shift: bv8, rem: bv8, p: nat, i: nat, j: bv8)
    requires shift < 8 && 1 <= rem <= 8 && shift as int + rem as int <= 8 && k < |buf| && i < |buf| && j < 8
    requires p == 8 * i + j as int
    ensures Bit(buf[k := MaskedByte(buf[k], v, shift, rem)], p) == if 8 * k + shift as int <= p < 8 * k + shift as int + rem as int
                         then BitOf(v, p - 8 * k - shift as int) else Bit(buf, p)
  {
    var r := buf[k := MaskedByte(buf[k], v, shift, rem)];
    BitAtPos(r, p, i, j);
    BitAtPos(buf, p, i, j);
    IndexRange(j, shift, rem);
    if i == k {
      MaskedByteBits(buf[k], v, shift, rem, j);
      if shift <= j < shift + rem {
        BitOfAt(v, j - shift);
      }
    }
  }

  /** A two-byte masked write at byte k, bit p. */
  lemma WordWritesAt(buf: seq<byte>, k: nat, v: byte, shift: bv8, rem: bv8, at: nat, r: seq<byte>, p: nat)
    requires shift < 8 && 1 <= rem <= 8 && k + 1 < |buf| && at == 8 * k + shift as int && p < 8 * |buf|
    requires r == SetWord(buf, k, MaskedWord(Join(buf[k], buf[k + 1]), v, shift, rem))
    ensures Bit(r, p) == if at <= p < at + rem as int then BitOf(v, p - at) else Bit(buf, p)
  {
    IdxVal(p % 8);
    MaskedWordBit(buf, k, v, shift, rem, p, p / 8, Idx(p % 8));
  }

  /** A one-byte masked write at byte k, bit p. */
  lemma ByteWritesAt(buf: seq<byte>, k: nat, v: byte, shift: bv8, rem: bv8, at: nat, r: seq<byte>, p: nat)
    requires shift < 8 && 1 <= rem <= 8 && shift as int + rem as int <= 8 && k < |buf| && p < 8 * |buf|
    requires at == 8 * k + shift as int && r == buf[k := MaskedByte(buf[k], v, shift, rem)]
    ensures Bit(r, p) == if at <= p < at + rem as int then BitOf(v, p - at) else Bit(buf, p)
  {
    IdxVal(p % 8);
    MaskedByteBit(buf, k, v, shift, rem, p, p / 8, Idx(p % 8));
  }

  /** A two-byte masked write at byte k writes bits [8k + shift, 8k + shift + rem). */
  lemma WordWrites(buf: seq<byte>, k: nat, v: byte, shift: bv8, rem: bv8, at: nat, r: seq<byte>)
    requires shift < 8 && 1 <= rem <= 8 && k + 1 < |buf| && at == 8 * k + shift as int
    requires r == SetWord(buf, k, MaskedWord(Join(buf[k], buf[k + 1]), v, shift, rem))
    ensures Writes(r, buf, v, at, rem as int)
  {
    forall p | 0 <= p < 8 * |buf|
      ensures Bit(r, p) == if at <= p < at + rem as int then BitOf(v, p - at) else Bit(buf, p)
    {
      WordWritesAt(buf, k, v, shift, rem, at, r, p);
    }
  }

  /** A one-byte masked write at byte k writes bits [8k + shift, 8k + shift + rem). */
  lemma ByteWrites(buf: seq<byte>, k: nat, v: byte, shift: bv8, rem: bv8, at: nat, r: seq<byte>)
    requires shift < 8 && 1 <= rem <= 8 && shift as int + rem as int <= 8 && k < |buf|
    requires at == 8 * k + shift as int && r == buf[k := MaskedByte(buf[k], v, shift, rem)]
    ensures Writes(r, buf, v, at, rem as int)
  {
    forall p | 0 <= p < 8 * |buf|
      ensures Bit(r, p) == if at <= p < at + rem as int then BitOf(v, p - at) else Bit(buf, p)
    {
      ByteWritesAt(buf, k, v, shift, rem, at, r, p);
    }
  }

  /** Writing the low d bits of value[i] right after the first 8i spliced
      bits splices 8i + d bits. */
  lemma SplicedExtend(r2: seq<byte>, r1: seq<byte>, s: seq<byte>, value: seq<byte>, at: nat, i: nat, from: nat, d: nat)
    requires i < |value| && d <= 8 && from == at + 8 * i && from + d <= 8 * |s|
    requires Spliced(r1, s, value, at, 8 * i)
    requires |r1| == |s| && Writes(r2, r1, value[i], from, d)
    ensures Spliced(r2, s, value, at, 8 * i + d)
  {
    forall p | 0 <= p < 8 * |s|
      ensures Bit(r2, p) == if at <= p < at + 8 * i + d then Bit(value, p - at) else Bit(s, p)
    {
      if from <= p < from + d {
        DivMod8(p - at, i, p - from);
      }
    }
  }

  /** One iteration of the write loop splices eight more bits. */
  lemma ShiftStep(s: seq<byte>, buf: seq<byte>, value: seq<byte>, shift: bv8, i: nat, next: seq<byte>)
    requires 0 < shift < 8 && i < |value| && i + 1 < |s| && |buf| == |s|
    requires Spliced(buf, s, value, shift as int, 8 * i)
    requires next == SetWord(buf, i, ShiftWord(Join(buf[i], buf[i + 1]), value[i], shift))
    ensures Spliced(next, s, value, shift as int, 8 * (i + 1))
  {
    ShiftWordMasked(Join(buf[i], buf[i + 1]), value[i], shift);
    WordWrites(buf, i, value[i], shift, 8, 8 * i + shift as int, next);
    SplicedExtend(next, buf, s, value, shift as int, i, 8 * i + shift as int, 8);
  }

  /** The write loop, when every byte it touches is there, splices 8c bits
      of value at bit `shift`. */
  lemma {:induction false} ShiftLoopSpliced(s: seq<byte>, buf: seq<byte>, value: seq<byte>, shift: bv8, i: nat, c: nat)
    requires 0 < shift < 8 && i <= c < |s| && c <= |value|
    requires Spliced(buf, s, value, shift as int, 8 * i)
    ensures ShiftLoop(buf, value, shift, i, c).Ok?
    ensures Spliced(ShiftLoop(buf, value, shift, i, c).value, s, value, shift as int, 8 * c)
    decreases c - i
  {
    if i < c {
      var next := SetWord(buf, i, ShiftWord(Join(buf[i], buf[i + 1]), value[i], shift));
      ShiftStep(s, buf, value, shift, i, next);
      ShiftLoopSpliced(s, next, value, shift, i + 1, c);
    }
  }

  /** The write loop stops with an IndexError at the first byte value lacks. */
  lemma {:induction false} ShiftLoopShort(buf: seq<byte>, value: seq<byte>, shift: bv8, i: nat, c: nat)
    requires 0 < shift < 8 && i <= |value| < c < |buf|
    ensures ShiftLoop(buf, value, shift, i, c) == Err(IndexError)
    decreases c - i
  {
    if i < |value| {
      ShiftLoopShort(SetWord(buf, i, ShiftWord(Join(buf[i], buf[i + 1]), value[i], shift)), value, shift, i + 1, c);
    }
  }

  /** The aligned slice assignment splices 8c bits of value at bit 0. */
  lemma SliceSpliced(buf: seq<byte>, value: seq<byte>, c: nat)
    requires c <= |buf| && c <= |value|
    ensures Spliced(SliceAssign(buf, c, value), buf, value, 0, 8 * c)
  {
    var r := SliceAssign(buf, c, value);
    forall p | 0 <= p < 8 * |buf|
      ensures Bit(r, p) == if p < 8 * c then Bit(value, p) else Bit(buf, p)
    {
      assert r[p / 8] == if p / 8 < c then value[p / 8] else buf[p / 8];
    }
  }

  /** Nothing spliced yet. */
  lemma SplicedNone(s: seq<byte>, value: seq<byte>, at: nat)
    requires at <= 8 * |s|
    ensures Spliced(s, s, value, at, 0)
  {
  }

  /** The tail write, when its bytes are there, splices rem more bits. */
  lemma WriteTailSpliced(s: seq<byte>, a: seq<byte>, value: seq<byte>, shift: bv8, rem: bv8, c: nat)
    requires shift < 8 && 1 <= rem < 8 && c < |value|
    requires 8 * |s| >= shift as int + 8 * c + rem as int
    requires Spliced(a, s, value, shift as int, 8 * c)
    ensures WriteTail(a, value, shift, rem, c).Ok?
    ensures Spliced(WriteTail(a, value, shift, rem, c).value, s, value, shift as int, 8 * c + rem as int)
  {
    var at := 8 * c + shift as int;
    if shift as int + rem as int > 8 {
      var r := SetWord(a, c, MaskedWord(Join(a[c], a[c + 1]), value[c], shift, rem));
      WordWrites(a, c, value[c], shift, rem, at, r);
      SplicedExtend(r, a, s, value, shift as int, c, at, rem as int);
    } else {
      var r := a[c := MaskedByte(a[c], value[c], shift, rem)];
      ByteWrites(a, c, value[c], shift, rem, at, r);
      SplicedExtend(r, a, s, value, shift as int, c, at, rem as int);
    }
  }

  /** raw holds exactly the bytes bits [shift, shift + 8c + rem) fall in. */
  predicate WriteCovers(raw: seq<byte>, shift: bv8, rem: bv8, c: nat)
  {
    shift as int + 8 * c + rem as int <= 8 * |raw| < shift as int + 8 * c + rem as int + 8
  }

  /** Rewriting the full covering run splices 8c + rem bits of value at
      bit `shift`. */
  lemma RewriteSpliced(raw: seq<byte>, value: seq<byte>, shift: bv8, rem: bv8, c: nat)
    requires shift < 8 && rem < 8 && WriteCovers(raw, shift, rem, c)
    requires 8 * c + rem as int <= 8 * |value|
    ensures Rewrite(raw, value, shift, rem, c).Ok?
    ensures Spliced(Rewrite(raw, value, shift, rem, c).value, raw, value, shift as int, 8 * c + rem as int)
  {
    var a := if shift != 0 then ShiftLoop(raw, value, shift, 0, c)
             else if c > 0 then Ok(SliceAssign(raw, c, value))
             else Ok(raw);
    if shift != 0 {
      SplicedNone(raw, value, shift as int);
      ShiftLoopSpliced(raw, raw, value, shift, 0, c);
    } else if c > 0 {
      SliceSpliced(raw, value, c);
    } else {
      SplicedNone(raw, value, 0);
    }
    assert a.Ok? && Spliced(a.value, raw, value, shift as int, 8 * c);
    if rem != 0 {
      WriteTailSpliced(raw, a.value, value, shift, rem, c);
    }
  }

  /** Storing a whole run that fits is overwriting it. */
  lemma StoreBytesInside(mem: seq<byte>, q: nat, buf: seq<byte>)
    requires q < |mem| && q + |buf| <= |mem|
    ensures StoreBytes(mem, q, buf) == Overwrite(mem, q, buf)
  {
    assert buf[..StoreCount(|mem|, q, |buf|)] == buf;
  }

  /** Bit p = 8(q + i) + jn of mem overwritten at byte q by buf is bit
      8i + jn of buf, and was bit 8i + jn of the slice raw. */
  lemma OverwriteBitInside(mem: seq<byte>, q: nat, raw: seq<byte>, buf: seq<byte>, r: seq<byte>,
                           p: nat, i: nat, jn: nat)
    requires q + |raw| <= |mem| && raw == mem[q..q + |raw|] && |buf| == |raw| && r == Overwrite(mem, q, buf)
    requires i < |buf| && jn < 8 && p == 8 * (q + i) + jn
    ensures Bit(r, p) == Bit(buf, 8 * i + jn) && Bit(mem, p) == Bit(raw, 8 * i + jn)
  {
    assert p / 8 == q + i && p % 8 == jn;
    assert (8 * i + jn) / 8 == i && (8 * i + jn) % 8 == jn;
    assert r[q + i] == buf[i] && mem[q + i] == raw[i];
  }

  /** Overwriting the slice raw = mem[q..q + |raw|] with a spliced copy of
      it splices the same bits of mem, at = 8q + shift. */
  lemma SplicedOfOverwrite(mem: seq<byte>, q: nat, raw: seq<byte>, buf: seq<byte>, r: seq<byte>,
                           value: seq<byte>, shift: nat, at: nat, n: nat)
    requires q + |raw| <= |mem| && raw == mem[q..q + |raw|] && at == 8 * q + shift
    requires shift + n <= 8 * |raw| && n <= 8 * |value|
    requires Spliced(buf, raw, value, shift, n) && r == Overwrite(mem, q, buf)
    ensures at + n <= 8 * |mem|
    ensures Spliced(r, mem, value, at, n)
  {
    forall p | 0 <= p < 8 * |mem|
      ensures Bit(r, p) == if at <= p < at + n then Bit(value, p - at) else Bit(mem, p)
    {
      var i, jn := p / 8 - q, p % 8;
      if q <= p / 8 < q + |buf| {
        OverwriteBitInside(mem, q, raw, buf, r, p, i, jn);
      } else {
        assert r[p / 8] == mem[p / 8];
      }
    }
  }

  /** Inside the region, with value holding at least bitcount bits,
      setbitbytes replaces bits [bitoffset, bitoffset + bitcount) of the
      region by the first bitcount bits of value and changes no other bit. */
  lemma WriteBitsStores(mem: seq<byte>, bitoffset: int, bitcount: nat, value: seq<byte>)
    requires 0 <= bitoffset && 0 < bitcount && bitoffset + bitcount <= 8 * |mem|
    requires bitcount <= 8 * |value|
    ensures WriteBits(mem, bitoffset, bitcount, value).Ok?
    ensures Spliced(WriteBits(mem, bitoffset, bitcount, value).value, mem, value, bitoffset, bitcount)
  {
    var q, cc := bitoffset / 8, CoverCount(bitoffset, bitcount);
    CoverInside(mem, bitoffset, bitcount);
    var raw := Clamped(mem, q, cc);
    IdxVal(bitoffset % 8);
    IdxVal(bitcount % 8);
    var sh, rm, c := Idx(bitoffset % 8), Idx(bitcount % 8), bitcount / 8;
    assert 8 * c + rm as int == bitcount;
    assert WriteCovers(raw, sh, rm, c);
    RewriteSpliced(raw, value, sh, rm, c);
    var buf := Rewrite(raw, value, sh, rm, c).value;
    StoreBytesInside(mem, q, buf);
    var r := Overwrite(mem, q, buf);
    assert WriteBits(mem, bitoffset, bitcount, value) == Ok(r);
    SplicedOfOverwrite(mem, q, raw, buf, r, value, bitoffset % 8, bitoffset, bitcount);
  }

  /** With too few bytes in value for bitcount bits, an unaligned write
      raises IndexError and changes nothing. */
  lemma WriteBitsShort(mem: seq<byte>, bitoffset: int, bitcount: nat, value: seq<byte>)
    requires 0 <= bitoffset && 0 < bitcount && bitoffset + bitcount <= 8 * |mem|
    requires 8 * |value| < bitcount && (bitoffset % 8 != 0 || bitcount % 8 != 0)
    ensures WriteBits(mem, bitoffset, bitcount, value) == Err(IndexError)
  {
    var q, cc := bitoffset / 8, CoverCount(bitoffset, bitcount);
    CoverInside(mem, bitoffset, bitcount);
    var raw := Clamped(mem, q, cc);
    IdxVal(bitoffset % 8);
    IdxVal(bitcount % 8);
    var sh, rm, c := Idx(bitoffset % 8), Idx(bitcount % 8), bitcount / 8;
    assert 8 * c + rm as int == bitcount;
    assert WriteCovers(raw, sh, rm, c);
    if sh != 0 && |value| < c {
      ShiftLoopShort(raw, value, sh, 0, c);
    } else if sh != 0 {
      SplicedNone(raw, value, sh as int);
      ShiftLoopSpliced(raw, raw, value, sh, 0, c);
    }
    assert Rewrite(raw, value, sh, rm, c) == Err(IndexError);
  }

  /** The aligned path does not check value's length: a short value shortens
      the slice, and setbytes stores only what is left. Writing 24 bits
      from one byte changes one byte and raises nothing. */
  lemma WriteBitsAlignedShort()
    ensures WriteBits([1, 2, 3], 0, 24, [9]) == Ok([9, 2, 3])
  {
    var mem: seq<byte> := [1, 2, 3];
    assert CoverCount(0, 24) == 3;
    assert Clamped(mem, 0, 3) == mem;
    assert Idx(0 % 8) == 0 && Idx(24 % 8) == 0 && 24 / 8 == 3;
    assert SliceAssign(mem, 3, [9]) == [9];
    assert StoreBytes(mem, 0, [9]) == [9, 2, 3];
  }

  /** A spliced buffer holds the written bits where they were written. */
  lemma PacksOfSpliced(x: seq<byte>, r: seq<byte>, s: seq<byte>, value: seq<byte>, at: nat, n: nat)
    requires at + n <= 8 * |s| && n <= 8 * |value|
    requires Spliced(r, s, value, at, n) && Packs(x, r, at, n)
    ensures Packs(x, value, 0, n)
  {
    forall k | 0 <= k < n
      ensures Bit(x, k) == Bit(value, k)
    {
      assert Bit(x, k) == Bit(r, at + k);
    }
  }

  /** Reading back what was written gives the written bits, packed. */
  lemma WriteThenRead(mem: seq<byte>, bitoffset: int, bitcount: nat, value: seq<byte>)
    requires 0 <= bitoffset && 0 < bitcount && bitoffset + bitcount <= 8 * |mem|
    requires bitcount <= 8 * |value|
    ensures WriteBits(mem, bitoffset, bitcount, value).Ok?
    ensures ReadBitsFixed(WriteBits(mem, bitoffset, bitcount, value).value, bitoffset, bitcount)
         == ReadBitsFixed(value, 0, bitcount)
  {
    WriteBitsStores(mem, bitoffset, bitcount, value);
    var r := WriteBits(mem, bitoffset, bitcount, value).value;
    ReadBitsFixedPacks(r, bitoffset, bitcount);
    ReadBitsFixedPacks(value, 0, bitcount);
    var x := ReadBitsFixed(r, bitoffset, bitcount).value;
    PacksOfSpliced(x, r, mem, value, bitoffset, bitcount);
    PacksUnique(x, ReadBitsFixed(value, 0, bitcount).value, value, 0, bitcount);
  }

  /** A value that is already a packing of bitcount bits reads back as itself. */
  lemma ReadPacked(value: seq<byte>, bitcount: nat)
    requires 0 < bitcount <= 8 * |value| && Packs(value, value, 0, bitcount)
    ensures ReadBitsFixed(value, 0, bitcount) == Ok(value)
  {
    ReadBitsFixedPacks(value, 0, bitcount);
    PacksUnique(ReadBitsFixed(value, 0, bitcount).value, value, value, 0, bitcount);
  }

  /** Writing back a packing of the bits already there leaves the region
      as it was. */
  lemma WritePacked(mem: seq<byte>, bitoffset: int, bitcount: nat, v: seq<byte>)
    requires 0 <= bitoffset && 0 < bitcount && bitoffset + bitcount <= 8 * |mem|
    requires Packs(v, mem, bitoffset, bitcount)
    ensures WriteBits(mem, bitoffset, bitcount, v) == Ok(mem)
  {
    WriteBitsStores(mem, bitoffset, bitcount, v);
    var r := WriteBits(mem, bitoffset, bitcount, v).value;
    forall p | 0 <= p < 8 * |r|
      ensures Bit(r, p) == Bit(mem, p)
    {
      if bitoffset <= p < bitoffset + bitcount {
        assert Bit(v, p - bitoffset) == Bit(mem, bitoffset + (p - bitoffset));
      }
    }
    BitsExtensional(r, mem);
  }

  /** Writing what the corrected read returns changes nothing. */
  lemma ReadThenWrite(mem: seq<byte>, bitoffset: int, bitcount: nat)
    requires 0 <= bitoffset && 0 < bitcount && bitoffset + bitcount <= 8 * |mem|
    ensures ReadBitsFixed(mem, bitoffset, bitcount).Ok?
    ensures WriteBits(mem, bitoffset, bitcount, ReadBitsFixed(mem, bitoffset, bitcount).value) == Ok(mem)
  {
    ReadBitsFixedPacks(mem, bitoffset, bitcount);
    WritePacked(mem, bitoffset, bitcount, ReadBitsFixed(mem, bitoffset, bitcount).value);
  }

  // ---------------------------------------------------------------------
  // Whole bytes

  /** A buffer packs all of its own bits. */
  lemma PacksWhole(v: seq<byte>)
    ensures Packs(v, v, 0, 8 * |v|)
  {
    assert (8 * |v| + 7) / 8 == |v|;
  }

  /** Reading all the bits of a buffer gives the buffer back. */
  lemma ReadWhole(v: seq<byte>)
    requires 0 < |v|
    ensures ReadBitsFixed(v, 0, 8 * |v|) == Ok(v)
  {
    PacksWhole(v);
    ReadPacked(v, 8 * |v|);
  }

  /** Writing whole bytes and reading them back gives the bytes written. */
  lemma WriteThenReadWhole(mem: seq<byte>, bitoffset: int, value: seq<byte>)
    requires 0 <= bitoffset && bitoffset + 8 * |value| <= 8 * |mem|
    ensures WriteBits(mem, bitoffset, 8 * |value|, value).Ok?
    ensures ReadBits(WriteBits(mem, bitoffset, 8 * |value|, value).value, bitoffset, 8 * |value|)
         == Ok(value)
  {
    var n := 8 * |value|;
    assert n % 8 == 0;
    if value == [] {
      WriteNothing(mem, bitoffset, value);
    } else {
      WriteThenRead(mem, bitoffset, n, value);
      ReadWhole(value);
    }
    ReadBitsWhole(WriteBits(mem, bitoffset, n, value).value, bitoffset, n);
  }

  /** Writing n whole bytes of a value at least that long and reading
      them back, as written, gives the first n bytes of the value. */
  lemma WriteThenReadPrefix(mem: seq<byte>, bitoffset: int, bitcount: nat, value: seq<byte>)
    requires 0 <= bitoffset && bitoffset + bitcount <= 8 * |mem|
    requires bitcount % 8 == 0 && bitcount <= 8 * |value|
    ensures WriteBits(mem, bitoffset, bitcount, value).Ok?
    ensures ReadBits(WriteBits(mem, bitoffset, bitcount, value).value, bitoffset, bitcount)
         == Ok(value[..bitcount / 8])
  {
    var k := bitcount / 8;
    assert bitcount == 8 * k;
    if k == 0 {
      WriteNothing(mem, bitoffset, value);
    } else {
      WriteThenRead(mem, bitoffset, bitcount, value);
      var head := value[..k];
      assert Packs(head, value, 0, bitcount) by {
        assert (bitcount + 7) / 8 == k;
        forall p | 0 <= p < bitcount
          ensures Bit(head, p) == Bit(value, p)
        {
          assert head[p / 8] == value[p / 8];
        }
      }
      ReadBitsFixedPacks(value, 0, bitcount);
      PacksUnique(ReadBitsFixed(value, 0, bitcount).value, head, value, 0, bitcount);
    }
    ReadBitsWhole(WriteBits(mem, bitoffset, bitcount, value).value, bitoffset, bitcount);
  }

  /** Writing and reading zero bits. */
  lemma WriteNothing(mem: seq<byte>, bitoffset: int, value: seq<byte>)
    requires 0 <= bitoffset <= 8 * |mem|
    ensures WriteBits(mem, bitoffset, 0, value).Ok?
    ensures ReadBitsFixed(WriteBits(mem, bitoffset, 0, value).value, bitoffset, 0) == Ok([])
  {
    var q, c := bitoffset / 8, CoverCount(bitoffset, 0);
    assert c <= 1;
    var raw := Clamped(mem, q, c);
    var shift := Idx(bitoffset % 8);
    if shift != 0 {
      assert ShiftLoop(raw, value, shift, 0, 0) == Ok(raw);
    }
    assert RewriteRun(mem, bitoffset, 0, value) == Ok(raw);
    assert StoreBytes(mem, q, raw) == mem;
  }

  // ---------------------------------------------------------------------
  // Single bits (getbit / setbit)

  /** getbit(bitoffset): bit bitoffset % 8 of byte bitoffset // 8, or False
      when that byte is outside the region. */
  predicate GetBitOf(mem: seq<byte>, bitoffset: int)
    ensures GetBitOf(mem, bitoffset) ==> 0 <= bitoffset < 8 * |mem|
  {
    0 <= bitoffset / 8 < |mem| && BitOf(mem[bitoffset / 8], bitoffset % 8)
  }

  /** Inside the region, getbit reads bit bitoffset of the buffer. */
  lemma GetBitOfBit(mem: seq<byte>, bitoffset: int)
    requires 0 <= bitoffset < 8 * |mem|
    ensures GetBitOf(mem, bitoffset) == Bit(mem, bitoffset)
  {
  }

  /** The buffer after setbit(bitoffset, v): byte bitoffset // 8 with that
      bit set or cleared; nothing when the byte is outside the region. */
  function SetBitIn(mem: seq<byte>, bitoffset: int, v: bool): (r: seq<byte>)
    ensures |r| == |mem|
  {
    if 0 <= bitoffset / 8 < |mem| then mem[bitoffset / 8 := WithBit(mem[bitoffset / 8], bitoffset % 8, v)]
    else mem
  }

  /** setbit then getbit: the bit set reads back as v, every other bit as
      before; outside the region nothing changes. */
  lemma SetBitThenGet(mem: seq<byte>, bitoffset: int, v: bool, p: int)
    ensures GetBitOf(SetBitIn(mem, bitoffset, v), p)
         == if p == bitoffset && 0 <= bitoffset / 8 < |mem| then v else GetBitOf(mem, p)
  {
    var q := bitoffset / 8;
    if 0 <= q < |mem| && 0 <= p / 8 < |mem| && p / 8 == q {
      WithBitBits(mem[q], bitoffset % 8, v, p % 8);
      assert p == 8 * q + p % 8 && bitoffset == 8 * q + bitoffset % 8;
    }
  }

  /** setbit of the value already there changes nothing. */
  lemma SetBitSame(mem: seq<byte>, bitoffset: int)
    ensures SetBitIn(mem, bitoffset, GetBitOf(mem, bitoffset)) == mem
  {
    var q := bitoffset / 8;
    if 0 <= q < |mem| {
      var b := WithBit(mem[q], bitoffset % 8, BitOf(mem[q], bitoffset % 8));
      forall j: bv8 | j < 8
        ensures BitAt(b, j) == BitAt(mem[q], j)
      {
        WithBitBits(mem[q], bitoffset % 8, BitOf(mem[q], bitoffset % 8), j as int);
        BitOfAt(b, j);
        BitOfAt(mem[q], j);
      }
      ByteExtensional(b, mem[q]);
    }
  }
}
