/** The change header at the front of every memory region: a change
    counter and the byte window [offset, offset + count) written since the
    reader last looked, kept by _recalcheader after every store. */
module Tracker {
  import opened Exceptions

  /** The header fields are 32-bit unsigned (c_uint): 2^32. */
  const U32: nat := 0x1_0000_0000

  /** A value stored into a c_uint field: truncated modulo 2^32. */
  function U(x: int): (r: nat)
    ensures r < U32
    ensures 0 <= x < U32 ==> r == x
  {
    x % U32
  }

  /** changeCounter, changeByteOffset and changeByteCount. */
  datatype Header = Header(counter: nat, offset: nat, count: nat)

  /** Every field holds a c_uint. */
  predicate ValidHeader(h: Header)
  {
    h.counter < U32 && h.offset < U32 && h.count < U32
  }

  /** The all-zero header of a fresh segment. */
  const Zero: Header := Header(0, 0, 0)

  /** The header after _recalcheader(byteoffset, bytecount): the window is
      moved left to byteoffset when it starts later (a count of 0 is then
      replaced by the write's own length, otherwise grown by the distance
      moved), then grown right to reach byteoffset + bytecount, and the
      counter is bumped; every stored field wraps modulo 2^32. */
  function Merge(h: Header, byteoffset: nat, bytecount: nat): (r: Header)
    ensures ValidHeader(h) ==> ValidHeader(r)
  {
    var rightedge := byteoffset + bytecount;
    var h1 :=
      if h.offset > byteoffset then
        var count := if h.count == 0 then U(rightedge - byteoffset) else U(h.count + (h.offset - byteoffset));
        Header(h.counter, U(byteoffset), count)
      else h;
    var h2 := if h1.offset + h1.count < rightedge then h1.(count := U(rightedge - h1.offset)) else h1;
    h2.(counter := U(h2.counter + 1))
  }

  /** Without wrap-around, the new window starts at the lower of the two
      starts and ends at the further of the two ends; the exception is an
      empty window lying to the right of the write, which is dropped. The
      counter goes up by one modulo 2^32. */
  lemma MergeWindow(h: Header, byteoffset: nat, bytecount: nat)
    requires ValidHeader(h) && h.offset + h.count < U32 && byteoffset + bytecount < U32
    ensures var r := Merge(h, byteoffset, bytecount);
      && r.counter == (h.counter + 1) % U32
      && r.offset == Min(h.offset, byteoffset)
      && r.offset + r.count
         == if h.count == 0 && h.offset > byteoffset then byteoffset + bytecount
            else Max(h.offset + h.count, byteoffset + bytecount)
  {
  }

  /** The new window covers the bytes just written and, unless it was
      empty, the old window. */
  lemma MergeCovers(h: Header, byteoffset: nat, bytecount: nat)
    requires ValidHeader(h) && h.offset + h.count < U32 && byteoffset + bytecount < U32
    ensures var r := Merge(h, byteoffset, bytecount);
      && r.offset <= byteoffset && byteoffset + bytecount <= r.offset + r.count
      && (h.count > 0 ==> r.offset <= h.offset && h.offset + h.count <= r.offset + r.count)
  {
    MergeWindow(h, byteoffset, bytecount);
  }

  /** The window part of a header. */
  function Window(h: Header): (w: (nat, nat))
    ensures w.0 == h.offset && w.1 == h.offset + h.count
  {
    (h.offset, h.offset + h.count)
  }

  /** A non-empty window stays non-empty and becomes the hull of itself and
      the write. */
  lemma MergeHull(h: Header, byteoffset: nat, bytecount: nat)
    requires ValidHeader(h) && 0 < h.count && h.offset + h.count < U32 && byteoffset + bytecount < U32
    ensures var r := Merge(h, byteoffset, bytecount);
      && ValidHeader(r) && 0 < r.count && r.offset + r.count < U32
      && Window(r) == (Min(h.offset, byteoffset), Max(h.offset + h.count, byteoffset + bytecount))
  {
    MergeWindow(h, byteoffset, bytecount);
  }

  /** Once the window is non-empty, the order of two writes does not change
      the window they leave. */
  lemma MergeCommutes(h: Header, o1: nat, c1: nat, o2: nat, c2: nat)
    requires ValidHeader(h) && 0 < h.count && h.offset + h.count < U32
    requires o1 + c1 < U32 && o2 + c2 < U32
    ensures Window(Merge(Merge(h, o1, c1), o2, c2)) == Window(Merge(Merge(h, o2, c2), o1, c1))
  {
    MergeHull(h, o1, c1);
    MergeHull(h, o2, c2);
    MergeHull(Merge(h, o1, c1), o2, c2);
    MergeHull(Merge(h, o2, c2), o1, c1);
  }

  /** Writing the same bytes again leaves the window as it was. */
  lemma MergeIdempotent(h: Header, byteoffset: nat, bytecount: nat)
    requires ValidHeader(h) && h.offset + h.count < U32 && byteoffset + bytecount < U32
    ensures var r := Merge(h, byteoffset, bytecount);
      Window(Merge(r, byteoffset, bytecount)) == Window(r)
  {
    var r := Merge(h, byteoffset, bytecount);
    MergeWindow(h, byteoffset, bytecount);
    MergeWindow(r, byteoffset, bytecount);
  }
}
