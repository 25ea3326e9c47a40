/** Byte and register reordering: the constructor's byte-order argument,
    swapbyteorder (pairwise byte swap used by the string accessors) and
    swap32 / swap64 (the 32- and 64-bit value layout across registers). */
module Codec {
  import opened Bytes

  // ---------------------------------------------------------------------
  // Byte order and register order

  /** The byteorder argument of a region constructor: an int code, a
      string, or anything else. */
  datatype OrderArg = IntArg(code: int) | StrArg(name: string) | OtherArg

  /** MB_DATAORDER_BIGENDIAN. */
  const DataOrderBigEndian: int := 1

  /** The register-order codes; any other value (the default, -1, included)
      leaves registers where they are. */
  const R0R1R2R3: int := 0
  const R3R2R1R0: int := 1
  const R1R0R3R2: int := 2
  const R2R3R0R1: int := 3

  /** The region's byte order: big only for the int code 1 or the string
      "big", little for everything else. */
  function NormalizeByteOrder(arg: OrderArg): (order: ByteOrder)
    ensures order == Big <==> arg == IntArg(DataOrderBigEndian) || arg == StrArg("big")
  {
    match arg
    case IntArg(code) => if code == DataOrderBigEndian then Big else Little
    case StrArg(name) => if name == "big" then Big else Little
    case OtherArg => Little
  }

  // ---------------------------------------------------------------------
  // swapbyteorder

  /** The index whose byte swapbyteorder moves to index k of an n-byte
      buffer: the other byte of k's pair, or k itself for an odd trailing
      byte. */
  function Partner(k: nat, n: nat): (p: nat)
    requires k < n
    ensures p < n
  {
    if k % 2 == 1 then k - 1 else if k + 1 < n then k + 1 else k
  }

  /** Pairing is symmetric. */
  lemma PartnerPartner(k: nat, n: nat)
    requires k < n
    ensures Partner(Partner(k, n), n) == k
  {
  }

  /** The buffer after swapbyteorder: bytes 2j and 2j + 1 exchanged for
      every pair, an odd trailing byte left alone. */
  function SwapPairs(s: seq<byte>): (r: seq<byte>)
    ensures |r| == |s|
    ensures forall k :: 0 <= k < |s| ==> r[k] == s[Partner(k, |s|)]
    decreases |s|
  {
    if |s| < 2 then s
    else
      var t := SwapPairs(s[2..]);
      assert forall k :: 2 <= k < |s| ==> Partner(k, |s|) == Partner(k - 2, |s| - 2) + 2;
      [s[1], s[0]] + t
  }

  /** Swapping twice gives the buffer back. */
  lemma SwapPairsInvolution(s: seq<byte>)
    ensures SwapPairs(SwapPairs(s)) == s
  {
    var r := SwapPairs(SwapPairs(s));
    forall k | 0 <= k < |s|
      ensures r[k] == s[k]
    {
      PartnerPartner(k, |s|);
    }
  }

  /** Index k of a buffer whose first m pairs are those of s exchanged,
      and whose remaining bytes are those of s, holds the byte of k's
      partner. */
  lemma SwappedAt(s: seq<byte>, d: seq<byte>, m: nat, k: nat)
    requires |d| == |s| && m == |s| / 2 && k < |s|
    requires forall p :: 0 <= p < m ==> d[2 * p] == s[2 * p + 1] && d[2 * p + 1] == s[2 * p]
    requires forall k :: 2 * m <= k < |s| ==> d[k] == s[k]
    ensures d[k] == s[Partner(k, |s|)]
  {
    var p := k / 2;
    assert k == 2 * p + k % 2;
    if k >= 2 * m {
      assert Partner(k, |s|) == k;
    } else if k % 2 == 0 {
      assert Partner(k, |s|) == 2 * p + 1 && d[2 * p] == s[2 * p + 1];
    } else {
      assert Partner(k, |s|) == 2 * p && d[2 * p + 1] == s[2 * p];
    }
  }

  /** Such a buffer, once all pairs are done, is the swapped buffer. */
  lemma SwapPairsOf(s: seq<byte>, d: seq<byte>, m: nat)
    requires |d| == |s| && m == |s| / 2
    requires forall p :: 0 <= p < m ==> d[2 * p] == s[2 * p + 1] && d[2 * p + 1] == s[2 * p]
    requires forall k :: 2 * m <= k < |s| ==> d[k] == s[k]
    ensures d == SwapPairs(s)
  {
    forall k | 0 <= k < |s|
      ensures d[k] == s[Partner(k, |s|)]
    {
      SwappedAt(s, d, m, k);
    }
  }

  /** swapbyteorder(data): swaps the pairs of data in place. */
  method SwapByteOrder(data: array<byte>)
    modifies data
    ensures data[..] == SwapPairs(old(data[..]))
  {
    ghost var s := data[..];
    var n := data.Length / 2;
    for j := 0 to n
      invariant forall p :: 0 <= p < j ==> data[2 * p] == s[2 * p + 1] && data[2 * p + 1] == s[2 * p]
      invariant forall k :: 2 * j <= k < data.Length ==> data[k] == s[k]
    {
      var i := j * 2;
      data[i], data[i + 1] := data[i + 1], data[i];
    }
    SwapPairsOf(s, data[..], n);
  }

  /** The bytes a string accessor stores for the bytes of a string: swapped
      in pairs under the big byte order. */
  function StringBytes(b: seq<byte>, order: ByteOrder): (r: seq<byte>)
    ensures |r| == |b|
  {
    if order == Big then SwapPairs(b) else b
  }

  /** Reading a string back undoes the reordering for either byte order. */
  lemma StringBytesInvolution(b: seq<byte>, order: ByteOrder)
    ensures StringBytes(StringBytes(b, order), order) == b
  {
    if order == Big {
      SwapPairsInvolution(b);
    }
  }

  // ---------------------------------------------------------------------
  // swap32 / swap64

  /** ba[2i:2i + 2], cut at the end of ba like a Python slice. */
  function Reg(ba: seq<byte>, i: nat): (r: seq<byte>)
    ensures |ba| >= 2 * i + 2 ==> r == ba[2 * i..2 * i + 2]
    ensures |r| <= 2 && forall k :: 0 <= k < |r| ==> 2 * i + k < |ba| && r[k] == ba[2 * i + k]
  {
    var lo := if 2 * i <= |ba| then 2 * i else |ba|;
    var hi := if 2 * i + 2 <= |ba| then 2 * i + 2 else |ba|;
    ba[lo..hi]
  }

  /** A register's two bytes, reversed (reg[::-1]) under the big byte order. */
  function InOrder(reg: seq<byte>, order: ByteOrder): (r: seq<byte>)
    ensures |r| == |reg|
  {
    if order == Big then Reverse(reg) else reg
  }

  /** swap32(ba): the two registers of ba, each byte-swapped when big, and
      exchanged for the register orders R3R2R1R0 and R1R0R3R2 only. */
  function Swap32(ba: seq<byte>, order: ByteOrder, regorder: int): (r: seq<byte>)
    ensures |ba| >= 4 ==> |r| == 4
  {
    var r0, r1 := InOrder(Reg(ba, 0), order), InOrder(Reg(ba, 1), order);
    if regorder == R3R2R1R0 || regorder == R1R0R3R2 then r1 + r0 else r0 + r1
  }

  /** swap64(ba): the four registers of ba, each byte-swapped when big, then
      permuted by the register order. */
  function Swap64(ba: seq<byte>, order: ByteOrder, regorder: int): (r: seq<byte>)
    ensures |ba| >= 8 ==> |r| == 8
  {
    var r0, r1 := InOrder(Reg(ba, 0), order), InOrder(Reg(ba, 1), order);
    var r2, r3 := InOrder(Reg(ba, 2), order), InOrder(Reg(ba, 3), order);
    if regorder == R3R2R1R0 then r3 + r2 + r1 + r0
    else if regorder == R1R0R3R2 then r1 + r0 + r3 + r2
    else if regorder == R2R3R0R1 then r2 + r3 + r0 + r1
    else r0 + r1 + r2 + r3
  }

  /** Swapping a register's bytes twice gives the register back. */
  lemma InOrderInvolution(reg: seq<byte>, order: ByteOrder)
    ensures InOrder(InOrder(reg, order), order) == reg
  {
    if order == Big {
      ReverseReverse(reg);
    }
  }

  /** A four-byte value is its two registers, in order. */
  lemma Regs32(ba: seq<byte>)
    requires |ba| == 4
    ensures ba == Reg(ba, 0) + Reg(ba, 1)
  {
  }

  /** An eight-byte value is its four registers, in order. */
  lemma Regs64(ba: seq<byte>)
    requires |ba| == 8
    ensures ba == Reg(ba, 0) + Reg(ba, 1) + Reg(ba, 2) + Reg(ba, 3)
  {
  }

  /** The registers of four two-byte runs laid end to end. */
  lemma RegCat4(a: seq<byte>, b: seq<byte>, c: seq<byte>, d: seq<byte>)
    requires |a| == |b| == |c| == |d| == 2
    ensures Reg(a + b + c + d, 0) == a && Reg(a + b + c + d, 1) == b
    ensures Reg(a + b + c + d, 2) == c && Reg(a + b + c + d, 3) == d
  {
    var s := a + b + c + d;
    assert s[0..2] == a && s[2..4] == b && s[4..6] == c && s[6..8] == d;
  }

  /** The registers of two two-byte runs laid end to end. */
  lemma RegCat2(a: seq<byte>, b: seq<byte>)
    requires |a| == |b| == 2
    ensures Reg(a + b, 0) == a && Reg(a + b, 1) == b
  {
    var s := a + b;
    assert s[0..2] == a && s[2..4] == b;
  }

  /** swap32 is its own inverse for every byte order and register order. */
  lemma Swap32Involution(ba: seq<byte>, order: ByteOrder, regorder: int)
    requires |ba| == 4
    ensures Swap32(Swap32(ba, order, regorder), order, regorder) == ba
  {
    var x0, x1 := InOrder(Reg(ba, 0), order), InOrder(Reg(ba, 1), order);
    InOrderInvolution(Reg(ba, 0), order);
    InOrderInvolution(Reg(ba, 1), order);
    Regs32(ba);
    if regorder == R3R2R1R0 || regorder == R1R0R3R2 {
      RegCat2(x1, x0);
    } else {
      RegCat2(x0, x1);
    }
  }

  /** With the little byte order, swap32 moves nothing unless the register
      order is R3R2R1R0 or R1R0R3R2; R2R3R0R1 in particular leaves the two
      registers of a 32-bit value in place. */
  lemma Swap32Identity(ba: seq<byte>, regorder: int)
    requires |ba| == 4 && regorder != R3R2R1R0 && regorder != R1R0R3R2
    ensures Swap32(ba, Little, regorder) == ba
  {
    Regs32(ba);
  }

  /** swap64 is its own inverse for every byte order and register order:
      each register permutation is its own inverse. */
  lemma Swap64Involution(ba: seq<byte>, order: ByteOrder, regorder: int)
    requires |ba| == 8
    ensures Swap64(Swap64(ba, order, regorder), order, regorder) == ba
  {
    var x0, x1 := InOrder(Reg(ba, 0), order), InOrder(Reg(ba, 1), order);
    var x2, x3 := InOrder(Reg(ba, 2), order), InOrder(Reg(ba, 3), order);
    InOrderInvolution(Reg(ba, 0), order);
    InOrderInvolution(Reg(ba, 1), order);
    InOrderInvolution(Reg(ba, 2), order);
    InOrderInvolution(Reg(ba, 3), order);
    Regs64(ba);
    if regorder == R3R2R1R0 {
      RegCat4(x3, x2, x1, x0);
    } else if regorder == R1R0R3R2 {
      RegCat4(x1, x0, x3, x2);
    } else if regorder == R2R3R0R1 {
      RegCat4(x2, x3, x0, x1);
    } else {
      RegCat4(x0, x1, x2, x3);
    }
  }

  /** With the little byte order and no register permutation, swap64 moves
      nothing. */
  lemma Swap64Identity(ba: seq<byte>, regorder: int)
    requires |ba| == 8 && regorder != R3R2R1R0 && regorder != R1R0R3R2 && regorder != R2R3R0R1
    ensures Swap64(ba, Little, regorder) == ba
  {
    Regs64(ba);
  }
}
