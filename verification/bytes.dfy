/** Bytes, bits and Python's integer <-> bytes conversions
    (int.from_bytes / int.to_bytes), as the region accessors use them. */
module Bytes {

  type byte = bv8

  /** The two values a region's byte order normalises to. */
  datatype ByteOrder = Little | Big

  // ---------------------------------------------------------------------
  // Bits

  /** Bit i (0 = least significant) of a byte. */
  predicate BitAt(b: byte, i: bv8)
    requires i < 8
  {
    b & (1 << i) != 0
  }

  /** A bit index 0..7 as a bit-vector shift amount. A table rather than a
      conversion keeps the solver away from integer/bit-vector casts. */
  function Idx(i: nat): (r: bv8)
    requires i < 8
    ensures r < 8
  {
    if i == 0 then 0 else if i == 1 then 1 else if i == 2 then 2 else if i == 3 then 3
    else if i == 4 then 4 else if i == 5 then 5 else if i == 6 then 6 else 7
  }

  lemma IdxVal(i: nat)
    requires i < 8
    ensures Idx(i) as int == i
  {
  }

  /** 1 << i for a bit index 0..7. */
  function BitMask(i: nat): (m: byte)
    requires i < 8
  {
    if i == 0 then 0x01 else if i == 1 then 0x02 else if i == 2 then 0x04 else if i == 3 then 0x08
    else if i == 4 then 0x10 else if i == 5 then 0x20 else if i == 6 then 0x40 else 0x80
  }

  /** Bit i of a byte, for an integer index: b & (1 << i) != 0. */
  predicate BitOf(b: byte, i: nat)
    requires i < 8
  {
    b & BitMask(i) != 0
  }

  /** b with bit i set to v: b | (1 << i), or b & ~(1 << i). */
  function WithBit(b: byte, i: nat, v: bool): (r: byte)
    requires i < 8
    ensures BitOf(r, i) == v
  {
    if v then b | BitMask(i) else b & !BitMask(i)
  }

  /** WithBit sets bit i to v and keeps the seven others. */
  lemma WithBitBits(b: byte, i: nat, v: bool, j: nat)
    requires i < 8 && j < 8
    ensures BitOf(WithBit(b, i, v), j) == if j == i then v else BitOf(b, j)
  {
    if j == 0 {} else if j == 1 {} else if j == 2 {} else if j == 3 {}
    else if j == 4 {} else if j == 5 {} else if j == 6 {} else {}
  }

  lemma BitOfAt(b: byte, j: bv8)
    requires j < 8
    ensures BitOf(b, j as int) == BitAt(b, j)
  {
    if j == 0 {} else if j == 1 {} else if j == 2 {} else if j == 3 {}
    else if j == 4 {} else if j == 5 {} else if j == 6 {} else {}
  }

  /** Bit p of a byte buffer: bit p % 8 of byte p / 8, the numbering in which
      coil p of a bit table is stored. */
  predicate Bit(s: seq<byte>, p: nat)
    requires p < 8 * |s|
  {
    BitOf(s[p / 8], p % 8)
  }

  /** A byte is determined by its eight bits. */
  lemma ByteExtensional(a: byte, b: byte)
    requires forall j: bv8 :: j < 8 ==> BitAt(a, j) == BitAt(b, j)
    ensures a == b
  {
    assert BitAt(a, 0) == BitAt(b, 0) && BitAt(a, 1) == BitAt(b, 1);
    assert BitAt(a, 2) == BitAt(b, 2) && BitAt(a, 3) == BitAt(b, 3);
    assert BitAt(a, 4) == BitAt(b, 4) && BitAt(a, 5) == BitAt(b, 5);
    assert BitAt(a, 6) == BitAt(b, 6) && BitAt(a, 7) == BitAt(b, 7);
  }

  /** Bit p of a buffer lives in byte p / 8 at position p % 8. */
  lemma BitAtPos(s: seq<byte>, p: nat, k: nat, j: bv8)
    requires k < |s| && j < 8 && p == 8 * k + j as int
    ensures Bit(s, p) == BitAt(s[k], j)
  {
    assert p / 8 == k && p % 8 == j as int;
    BitOfAt(s[k], j);
  }

  /** Two buffers of one length with the same bits are equal. */
  lemma BitsExtensional(a: seq<byte>, b: seq<byte>)
    requires |a| == |b|
    requires forall p :: 0 <= p < 8 * |a| ==> Bit(a, p) == Bit(b, p)
    ensures a == b
  {
    forall k | 0 <= k < |a|
      ensures a[k] == b[k]
    {
      forall j: bv8 | j < 8
        ensures BitAt(a[k], j) == BitAt(b[k], j)
      {
        BitAtPos(a, 8 * k + j as int, k, j);
        BitAtPos(b, 8 * k + j as int, k, j);
      }
      ByteExtensional(a[k], b[k]);
    }
  }

  /** Bits of a slice are the bits of the buffer, moved by whole bytes. */
  lemma BitOfSlice(s: seq<byte>, lo: nat, hi: nat, q: nat)
    requires lo <= hi <= |s| && q < 8 * (hi - lo)
    ensures Bit(s[lo..hi], q) == Bit(s, 8 * lo + q)
  {
    assert (8 * lo + q) / 8 == lo + q / 8 && (8 * lo + q) % 8 == q % 8;
  }

  /** A run of bytes written over a buffer at byte offset off. */
  function Overwrite(s: seq<byte>, off: nat, run: seq<byte>): (r: seq<byte>)
    requires off + |run| <= |s|
    ensures |r| == |s|
    ensures forall k :: 0 <= k < |run| ==> r[off + k] == run[k]
    ensures forall k :: 0 <= k < |s| && !(off <= k < off + |run|) ==> r[k] == s[k]
  {
    s[..off] + run + s[off + |run|..]
  }

  /** The bits of an overwritten buffer: those of the run inside it, the old
      ones outside. */
  lemma BitOfOverwrite(s: seq<byte>, off: nat, run: seq<byte>, p: nat)
    requires off + |run| <= |s| && p < 8 * |s|
    ensures Bit(Overwrite(s, off, run), p)
         == if 8 * off <= p < 8 * (off + |run|) then Bit(run, p - 8 * off) else Bit(s, p)
  {
    var r := Overwrite(s, off, run);
    if 8 * off <= p < 8 * (off + |run|) {
      assert p / 8 == off + (p - 8 * off) / 8 && p % 8 == (p - 8 * off) % 8;
    } else {
      assert !(off <= p / 8 < off + |run|);
    }
  }

  /** A run of n bytes 0xFF, as memset(…, -1, n) writes to the mask plane. */
  function Ones(n: nat): (r: seq<byte>)
    ensures |r| == n && forall k :: 0 <= k < n ==> r[k] == 0xFF
  {
    seq(n, _ => 0xFF)
  }

  // ---------------------------------------------------------------------
  // Byte sequences read as numbers

  function Pow256(n: nat): (r: nat)
    ensures r >= 1
  {
    if n == 0 then 1 else 256 * Pow256(n - 1)
  }

  /** The unsigned value of a little-endian byte sequence. */
  function Unsigned(s: seq<byte>): (r: nat)
    ensures r < Pow256(|s|)
  {
    if s == [] then 0 else s[0] as nat + 256 * Unsigned(s[1..])
  }

  /** The n low base-256 digits of v, least significant first. Division and
      remainder by 256 floor, so a negative v gives the digits of its two's
      complement, v mod 256^n. */
  function LittleEndian(v: int, n: nat): (r: seq<byte>)
    ensures |r| == n
    decreases n
  {
    if n == 0 then [] else [(v % 256) as byte] + LittleEndian(v / 256, n - 1)
  }

  /** Quotient and remainder by 256 are the unique digit split. */
  lemma DivMod256(x: int, q: int, d: int)
    requires 0 <= d < 256 && x == 256 * q + d
    ensures x / 256 == q && x % 256 == d
  {
  }

  /** Dropping the low digit of a value below 256 * p leaves one below p. */
  lemma DigitBound(v: int, p: nat)
    requires 0 <= v < 256 * p
    ensures 0 <= v / 256 < p && v == 256 * (v / 256) + v % 256
  {
  }

  lemma ByteOfDigit(d: int)
    requires 0 <= d < 256
    ensures (d as byte) as int == d
  {
    if d < 16 {} else if d < 32 {} else if d < 48 {} else if d < 64 {}
    else if d < 80 {} else if d < 96 {} else if d < 112 {} else if d < 128 {}
    else if d < 144 {} else if d < 160 {} else if d < 176 {} else if d < 192 {}
    else if d < 208 {} else if d < 224 {} else if d < 240 {} else {}
  }

  lemma {:induction false} UnsignedOfLittleEndian(v: int, n: nat)
    requires 0 <= v < Pow256(n)
    ensures Unsigned(LittleEndian(v, n)) == v
    decreases n
  {
    if n > 0 {
      var q, d := v / 256, v % 256;
      var s := LittleEndian(v, n);
      assert s[1..] == LittleEndian(q, n - 1);
      DigitBound(v, Pow256(n - 1));
      UnsignedOfLittleEndian(q, n - 1);
      ByteOfDigit(d);
      assert Unsigned(s) == s[0] as int + 256 * Unsigned(s[1..]);
    }
  }

  /** The digits only depend on v modulo 256^n. */
  lemma {:induction false} LittleEndianPeriodic(v: int, n: nat)
    ensures LittleEndian(v - Pow256(n), n) == LittleEndian(v, n)
    decreases n
  {
    if n > 0 {
      var P := Pow256(n - 1);
      var q, d := v / 256, v % 256;
      DivMod256(v, q, d);
      DivMod256(v - 256 * P, q - P, d);
      LittleEndianPeriodic(q, n - 1);
      assert LittleEndian(v - Pow256(n), n)
          == [(d as byte)] + LittleEndian(q - P, n - 1);
    }
  }

  /** The digits of any v read back as v modulo 256^n: a store of n bytes
      wraps around. */
  lemma {:induction false} UnsignedOfLittleEndianMod(v: int, n: nat)
    ensures Unsigned(LittleEndian(v, n)) == v % Pow256(n)
    decreases n
  {
    if n > 0 {
      var P := Pow256(n - 1);
      var q, d := v / 256, v % 256;
      var s := LittleEndian(v, n);
      assert s[1..] == LittleEndian(q, n - 1);
      UnsignedOfLittleEndianMod(q, n - 1);
      ByteOfDigit(d);
      DigitSplit(v, P);
      assert Unsigned(s) == s[0] as int + 256 * Unsigned(s[1..]);
    }
  }

  /** v modulo 256 * P is its low digit plus 256 times the rest modulo P. */
  lemma DigitSplit(v: int, P: nat)
    requires P > 0
    ensures v % (256 * P) == v % 256 + 256 * ((v / 256) % P)
  {
    var q, d := v / 256, v % 256;
    var a, m := q / P, q % P;
    DivModOf(q, P);
    assert v == 256 * q + d;
    assert 256 * q == (256 * P) * a + 256 * m by {
      assert 256 * (P * a) == (256 * P) * a;
    }
    ModOf(v, 256 * P, a, 256 * m + d);
  }

  /** The remainder by m of m * a + r, for 0 <= r < m. */
  lemma ModOf(x: int, m: int, a: int, r: int)
    requires 0 <= r < m && x == m * a + r
    ensures x % m == r
  {
    var q, t := x / m, x % m;
    var k := q - a;
    assert m * k == r - t by {
      assert m * q + t == m * a + r;
      assert m * k == m * q - m * a;
    }
    if k > 0 {
      MulAtLeast(m, k);
    }
  }

  /** x = P * (x / P) + x % P. */
  lemma DivModOf(x: int, P: nat)
    requires P > 0
    ensures x == P * (x / P) + x % P && 0 <= x % P < P
  {
  }

  /** m * k >= m for k >= 1. */
  lemma {:induction false} MulAtLeast(m: nat, k: int)
    requires k >= 1
    ensures m * k >= m
    decreases k
  {
    if k > 1 {
      MulAtLeast(m, k - 1);
      assert m * k == m * (k - 1) + m;
    }
  }

  lemma DigitOfByte(b: byte)
    ensures (b as int) as byte == b
  {
  }

  lemma {:induction false} LittleEndianOfUnsigned(s: seq<byte>)
    ensures LittleEndian(Unsigned(s), |s|) == s
  {
    if s != [] {
      var u := Unsigned(s[1..]);
      var v := s[0] as int + 256 * u;
      assert Unsigned(s) == v;
      DivMod256(v, u, s[0] as int);
      DigitOfByte(s[0]);
      LittleEndianOfUnsigned(s[1..]);
      assert LittleEndian(v, |s|) == [s[0]] + LittleEndian(u, |s| - 1);
      assert s == [s[0]] + s[1..];
    }
  }

  function Reverse(s: seq<byte>): (r: seq<byte>)
    ensures |r| == |s| && forall i :: 0 <= i < |s| ==> r[i] == s[|s| - 1 - i]
  {
    seq(|s|, i requires 0 <= i < |s| => s[|s| - 1 - i])
  }

  lemma ReverseReverse(s: seq<byte>)
    ensures Reverse(Reverse(s)) == s
  {
  }

  // ---------------------------------------------------------------------
  // int.from_bytes / int.to_bytes

  /** The widths of the typed accessors: 8, 16, 32 and 64 bits. */
  datatype Width = W8 | W16 | W32 | W64

  /** The bytes of a value of width w. */
  function Size(w: Width): (n: nat)
    ensures n == 1 || n == 2 || n == 4 || n == 8
  {
    match w
    case W8 => 1
    case W16 => 2
    case W32 => 4
    case W64 => 8
  }

  /** Whether int.to_bytes(n, …, signed) accepts v; it raises OverflowError otherwise. */
  predicate Fits(v: int, n: nat, signed: bool)
    ensures 0 < n ==> (Fits(v, n, signed) <==>
      if signed then -(Pow256(n) / 2) <= v < Pow256(n) / 2 else 0 <= v < Pow256(n))
  {
    if signed then -(Pow256(n) as int) <= 2 * v < Pow256(n) else 0 <= v < Pow256(n)
  }

  /** The value of n bytes whose unsigned reading is u: u itself, or u - 256^n
      when signed and the top bit is set. */
  function Signed(u: nat, n: nat, signed: bool): (r: int)
    ensures r % Pow256(n) == u % Pow256(n)
    ensures u < Pow256(n) ==> Fits(r, n, signed)
  {
    var P := Pow256(n);
    if signed && 2 * u >= P then
      DivModOf(u, P);
      ModOf(u - P, P, u / P - 1, u % P);
      u - P
    else
      u
  }

  /** int.from_bytes(b, byteorder=order, signed=signed). */
  function FromBytes(b: seq<byte>, order: ByteOrder, signed: bool): (v: int)
    ensures Fits(v, |b|, signed)
  {
    Signed(Unsigned(if order == Big then Reverse(b) else b), |b|, signed)
  }

  /** v.to_bytes(n, order, signed=signed) for a value that fits. */
  function ToBytes(v: int, n: nat, order: ByteOrder, signed: bool): (b: seq<byte>)
    requires Fits(v, n, signed)
    ensures |b| == n
  {
    var le := LittleEndian(v, n);
    if order == Big then Reverse(le) else le
  }

  /** The bytes a ctypes integer field of n bytes holds after `field = v` on a
      little-endian host: v is silently truncated to its low 8n bits. */
  function CStore(v: int, n: nat): (b: seq<byte>)
    ensures |b| == n
    ensures Unsigned(b) == v % Pow256(n)
  {
    UnsignedOfLittleEndianMod(v, n);
    LittleEndian(v, n)
  }

  /** The digits of a value that fits read back as the value, or as its
      two's complement when it is negative. */
  lemma UnsignedOfFits(v: int, n: nat, signed: bool)
    requires Fits(v, n, signed)
    ensures Unsigned(LittleEndian(v, n)) == if v < 0 then v + Pow256(n) else v
  {
    if v < 0 {
      LittleEndianPeriodic(v + Pow256(n), n);
      UnsignedOfLittleEndian(v + Pow256(n), n);
    } else {
      UnsignedOfLittleEndian(v, n);
    }
  }

  /** from_bytes undoes to_bytes for every value to_bytes accepts. */
  lemma FromBytesToBytes(v: int, n: nat, order: ByteOrder, signed: bool)
    requires Fits(v, n, signed)
    ensures FromBytes(ToBytes(v, n, order, signed), order, signed) == v
  {
    var le := LittleEndian(v, n);
    if order == Big {
      ReverseReverse(le);
    }
    UnsignedOfFits(v, n, signed);
  }

  /** The digits of a decoded value are the bytes it was decoded from. */
  lemma LittleEndianOfSigned(s: seq<byte>, signed: bool)
    ensures LittleEndian(Signed(Unsigned(s), |s|, signed), |s|) == s
  {
    var u, n := Unsigned(s), |s|;
    var v := Signed(u, n, signed);
    LittleEndianOfUnsigned(s);
    if signed && 2 * u >= Pow256(n) {
      assert v == u - Pow256(n);
      LittleEndianPeriodic(u, n);
    } else {
      assert v == u;
    }
    assert LittleEndian(v, n) == LittleEndian(u, n);
  }

  /** to_bytes undoes from_bytes: every byte pattern is the encoding of the
      value it decodes to. */
  lemma ToBytesFromBytes(b: seq<byte>, order: ByteOrder, signed: bool)
    ensures ToBytes(FromBytes(b, order, signed), |b|, order, signed) == b
  {
    var s := if order == Big then Reverse(b) else b;
    LittleEndianOfSigned(s, signed);
    if order == Big {
      ReverseReverse(b);
    }
  }

  /** On a value that fits, the ctypes store writes its little-endian encoding. */
  lemma CStoreFits(v: int, n: nat, signed: bool)
    requires Fits(v, n, signed)
    ensures CStore(v, n) == ToBytes(v, n, Little, signed)
  {
  }

  /** A big-endian encoding is the reversed little-endian one. */
  lemma ToBytesBig(v: int, n: nat, signed: bool)
    requires Fits(v, n, signed)
    ensures ToBytes(v, n, Big, signed) == Reverse(ToBytes(v, n, Little, signed))
  {
  }
}
