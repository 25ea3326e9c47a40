# ModbusTools server scripting library: the memory-region codec

This project models the part of the ModbusTools server's Python scripting
library (`mbserver.py`) that scripts use to read and write the four tables
of a simulated Modbus device, and proves properties of that model in Dafny.
The four tables are coils (0x), discrete inputs (1x), input registers (3x)
and holding registers (4x), as in section 4.3 of the Modbus Application
Protocol Specification V1.1b3. Each table is a region with three parts:
- a data plane of `countbytes` bytes;
- a mask plane of the same size, in which every stored byte is set to 0xFF;
- a change header (`changeCounter`, `changeByteOffset`, `changeByteCount`).

The header's window grows to cover every write.

The model has these modules:

- `Exceptions`: the Python exceptions the code can raise, and `Result` / `Option`.
- `Bytes`:
  - bytes as `bv8`;
  - bit access;
  - `int.from_bytes` / `int.to_bytes` over little and big byte order, signed or not;
  - the truncating ctypes store.
- `Codec`:
  - `swapbyteorder`, as an in-place array method;
  - the byte-order normalisation done by the region constructor;
  - `swap32` / `swap64`.
- `Tracker`: `_recalcheader` as a function on the header.
- `BitPacker`: the byte arithmetic of the region primitives, as functions on sequences:
  - `_getbytes` and `setbytes` clamping;
  - `getbitbytearray` and `setbitbytes`;
  - `getbit` and `setbit`.
- `Region`: `_MemoryBlock`, as a class.
  - Its `data` and `mask` arrays and header fields are updated in place.
  - Each operation is proved against the specification functions of `BitPacker` and `Tracker`.
  - The loops of `getbitbytearray` / `setbitbytes` / `swapbyteorder` are separate methods, each with its own invariants.
- `BitRegion`: `_MemoryBlockBits`.
  - A class around a `MemoryBlock`.
  - Its item count is clamped.
  - Indexing raises `IndexError`.
  - The int8 to int64 accessors, signed and unsigned, are parametrised by width.
  - String accessors.
- `RegRegion`: `_MemoryBlockRegs`, the same for 16-bit registers.
  - Register i sits in bytes 2i (low) and 2i + 1 (high), as on a little-endian host.
- `Device`: `_MbDevice`:
  - the control block;
  - the table from region kind to region;
  - the exception-status fallback;
  - the NUL-terminated string table;
  - `getmemdump`;
  - the typed accessors by address;
  - the python-cycle counter of `_MemoryPythonBlock`.

Where a setter can raise, the model returns `Err(...)` and leaves the region
unchanged:
- `int.to_bytes` raises `OverflowError`;
- `struct.pack` raises `struct.error`, modelled as `StructError`;
- a short `value` raises `IndexError`.

A plain ctypes store truncates modulo 2^(8·size), and the model writes that truncation out. As a result, the 32- and 64-bit register setters behave in two different ways:
- They convert through `to_bytes` unless the byte order is little AND the register order is R0R1R2R3 (`mbserver.py:1129`).
- With the default register order (-1) and the little byte order, `swap32` / `swap64` move nothing. Even so, a value that does not fit raises `OverflowError` instead of being truncated.
- `RegRegion.Encode` states exactly when a setter fails, and `RegRegion.SetWraps` states the truncating case.

## Model

| member | source | states |
|---|---|---|
| Bytes.WithBit | src/server/python/mbserver.py:431-434 | setbit's `\|= 1 << i` / `&= ~(1 << i)` leaves bit i equal to v; that the seven other bits are kept is `Bytes.WithBitBits` |
| Bytes.WithBitBits | src/server/python/mbserver.py:431-434 | after setting bit i of a byte to v, bit i reads v and every other bit reads as before |
| Bytes.Fits | src/server/python/mbserver.py:625 | to_bytes(n, signed) accepts v exactly when v lies in [-2^(8n-1), 2^(8n-1)) if signed, in [0, 2^(8n)) if not |
| Bytes.Signed | src/server/python/mbserver.py:610 | the signed reading of n bytes is congruent to their unsigned value modulo 2^(8n), and it fits n bytes |
| Bytes.FromBytes | src/server/python/mbserver.py:610 | int.from_bytes of n bytes always fits n bytes with the given signedness; that it inverts to_bytes is `Bytes.FromBytesToBytes` and `Bytes.ToBytesFromBytes` |
| Bytes.ToBytes | src/server/python/mbserver.py:625 | int.to_bytes of a value that fits gives exactly n bytes; its inverse is stated by `Bytes.FromBytesToBytes` and `Bytes.ToBytesFromBytes` |
| Bytes.FromBytesToBytes | src/server/python/mbserver.py:1129-1131 | from_bytes undoes to_bytes for every value to_bytes accepts, under either byte order and signedness |
| Bytes.ToBytesFromBytes | src/server/python/mbserver.py:1129-1131 | to_bytes undoes from_bytes: every byte pattern is the encoding of the value read from it |
| Bytes.CStore | src/server/python/mbserver.py:1151 | a ctypes integer store of n bytes writes n bytes whose unsigned value is v modulo 2^(8n): the value is silently truncated |
| Bytes.CStoreFits | src/server/python/mbserver.py:1151 | for a value that fits, the ctypes store writes exactly its little-endian to_bytes encoding |
| Bytes.UnsignedOfLittleEndianMod | src/server/python/mbserver.py:1151 | the n little-endian digits of any integer read back as that integer modulo 2^(8n) |
| Codec.NormalizeByteOrder | src/server/python/mbserver.py:89-101 | the normalised order is big exactly when the argument is the int 1 or the string 'big'; every other argument gives little |
| Codec.SwapPairs | src/server/python/mbserver.py:19-38 | same length; byte k becomes the byte at its pair partner (2j and 2j+1 exchanged, an odd trailing byte left in place) |
| Codec.PartnerPartner | src/server/python/mbserver.py:35-37 | the pair partner of the pair partner of a position is the position itself |
| Codec.SwapPairsInvolution | src/server/python/mbserver.py:19-38 | swapbyteorder applied twice gives the input back |
| Codec.SwapByteOrder | src/server/python/mbserver.py:19-38 | the in-place loop leaves the array equal to SwapPairs of its old contents |
| Codec.StringBytes | src/server/python/mbserver.py:458-562 | the bytes a string accessor stores or returns (pairs swapped under the big order) keep the length |
| Codec.StringBytesInvolution | src/server/python/mbserver.py:458-562 | under either byte order, converting twice gives the bytes back, so a string read after a write returns the same bytes |
| Codec.Reg | src/server/python/mbserver.py:151 | ba[2i:2i+2] as a Python slice: at most two bytes, each the byte of ba at 2i + k, and exactly those two when ba is long enough |
| Codec.InOrder | src/server/python/mbserver.py:154-155 | reg[::-1] under the big order keeps the register's length; reversing twice gives it back (`Codec.InOrderInvolution`) |
| Codec.Swap32 | src/server/python/mbserver.py:149-165 | swap32 of four bytes gives four bytes; it is an involution (`Codec.Swap32Involution`) and the identity under little order for the non-swapping register orders (`Codec.Swap32Identity`) |
| Codec.Swap64 | src/server/python/mbserver.py:168-188 | swap64 of eight bytes gives eight bytes; it is an involution (`Codec.Swap64Involution`) and the identity under little order for the non-permuting register orders (`Codec.Swap64Identity`) |
| Codec.InOrderInvolution | src/server/python/mbserver.py:154-155 | reversing a register's bytes under the big order, twice, gives the register back |
| Codec.Swap32Involution | src/server/python/mbserver.py:149-165 | swap32 is an involution for every byte order and every register order |
| Codec.Swap32Identity | src/server/python/mbserver.py:149-165 | under the little order, swap32 is the identity unless the register order is R3R2R1R0 or R1R0R3R2; R2R3R0R1 does not move registers for 32-bit values |
| Codec.Swap64Involution | src/server/python/mbserver.py:168-188 | swap64 is an involution for every byte order and every register order |
| Codec.Swap64Identity | src/server/python/mbserver.py:168-188 | under the little order, swap64 is the identity for every register order other than the three codes it permutes |
| Tracker.U | src/server/python/mbserver.py:125-135 | a value stored into a c_uint header field is below 2^32, and unchanged when it was already in range |
| Tracker.Merge | src/server/python/mbserver.py:125-135 | a merged header is well formed whenever the old one was (fields are 32-bit, the counter wraps) |
| Tracker.MergeWindow | src/server/python/mbserver.py:125-135 | the counter goes up by exactly one; the new left edge is min(old offset, byteoffset); the new right edge is the wider of the two right edges, except that an empty window to the right of the write becomes exactly the written run |
| Tracker.MergeCovers | src/server/python/mbserver.py:125-135 | afterwards the window contains the written run, and it contains the old window when that was not empty |
| Tracker.MergeHull | src/server/python/mbserver.py:125-135 | from a non-empty window the new window is exactly the hull of the old window and the written run |
| Tracker.MergeCommutes | src/server/python/mbserver.py:125-135 | two writes widen a non-empty window to the same window in either order |
| Tracker.MergeIdempotent | src/server/python/mbserver.py:125-135 | recording the same write twice leaves the same window as recording it once |
| BitPacker.Clamped | src/server/python/mbserver.py:137-147 | _getbytes with the offset inside returns the min(count, countbytes - offset) bytes starting there, and returns empty with the offset outside |
| BitPacker.GetBytesOf | src/server/python/mbserver.py:137-147 | _getbytes raises ValueError exactly when the offset is inside and the count is negative; otherwise it returns the clamped run, empty for a negative count outside |
| BitPacker.CoverCount | src/server/python/mbserver.py:298-300 | the covering byte count (bitoffset+bitcount-1)//8 - bitoffset//8 + 1 of a run of n >= 0 bits is ceil((bitoffset % 8 + n) / 8), the bytes the run touches |
| BitPacker.NegativeCover | src/server/python/mbserver.py:298-300 | with a negative bitcount the covering byte count is at most 1; it is negative below -7 - bitoffset % 8 and 1 from 1 - bitoffset % 8 on |
| BitPacker.StoreCount | src/server/python/mbserver.py:267-271 | setbytes copies min(len(value), countbytes - offset) bytes with the offset inside and none outside |
| BitPacker.StoreBytes | src/server/python/mbserver.py:255-279 | after setbytes, every byte inside the copied run holds the value's byte and every other byte is unchanged |
| BitPacker.Combine | src/server/python/mbserver.py:309 | the realigned byte; its bits are stated by `BitPacker.CombineBits` |
| BitPacker.CombineBits | src/server/python/mbserver.py:309 | bit j of ((b2 << (8-shift)) \| (b1 >> shift)) & 0xFF is bit j + shift of b1 below 8 - shift and bit j + shift - 8 of b2 from there on |
| BitPacker.Realign | src/server/python/mbserver.py:305-311 | the read loop keeps the buffer's length and its last byte, since it runs over range(len - 1); what each rebuilt byte holds is `BitPacker.RealignBit` |
| BitPacker.RealignBit | src/server/python/mbserver.py:305-311 | every rebuilt byte i holds bits 8·i + shift … 8·i + shift + 7 of the covering bytes |
| BitPacker.Realigned | src/server/python/mbserver.py:304-311 | with or without the loop (it is skipped when shift is 0), the length and the last byte are kept |
| BitPacker.RealignedBit | src/server/python/mbserver.py:304-311 | after the optional loop, byte i holds the eight bits from 8·i + shift of the covering bytes whenever it has a successor or shift is 0 |
| BitPacker.TrimWritten | src/server/python/mbserver.py:312-317 | as written: IndexError exactly when rem is not 0 and byte ri is missing; otherwise the bytes before ri are kept, byte ri has no bit at or above rem, and only the byte after ri is dropped |
| BitPacker.DeleteAt | src/server/python/mbserver.py:318-319 | del s[k] leaves one byte fewer: the bytes before k kept, those after k moved down by one |
| BitPacker.ReadNegative | src/server/python/mbserver.py:298-320 | with a negative bitcount, getbitbytearray succeeds exactly when the run starts inside the region and would end inside its first byte, and then returns no bytes; otherwise it raises ValueError or IndexError |
| BitPacker.ReadBits | src/server/python/mbserver.py:282-320 | getbitbytearray as written never returns more than ceil(n/8) bytes (none for n <= 0); it raises only IndexError, or ValueError for a negative bit count |
| BitPacker.ReadBitsFixed | src/server/python/mbserver.py:282-320 | the corrected reading has the same bound and the same errors; what it returns in range is `BitPacker.ReadBitsFixedPacks` |
| BitPacker.ReadBitsPacks | src/server/python/mbserver.py:282-320 | getbitbytearray, as written, packs bits [o, o+n) into ceil(n/8) bytes, low bit first, padded with zeros, when n is a multiple of 8 or the tail does not straddle a byte |
| BitPacker.ReadBitsStraddle | src/server/python/mbserver.py:312-317 | as written, reading 6 bits at offset 4 of [0xF0, 0x03] gives [0x03]; the corrected reading gives [0x3F] |
| BitPacker.ReadBitsFixedPacks | src/server/python/mbserver.py:282-320 | the corrected getbitbytearray packs bits [o, o+n) for every in-range o and n > 0 |
| BitPacker.ReadBitsWhole | src/server/python/mbserver.py:312-317 | for a bit count that is a multiple of 8 the reading as written equals the corrected one |
| BitPacker.ReadBitsNegative | src/server/python/mbserver.py:298-320 | getbitbytearray with a negative bitcount raises ValueError inside the region when the covering count is negative, returns empty when the run would end inside its first byte, and raises IndexError otherwise |
| BitPacker.PacksUnique | src/server/python/mbserver.py:282-320 | the packed bytes of a bit run are unique, so any two readings that both pack the run are equal |
| BitPacker.ShiftWord | src/server/python/mbserver.py:358-367 | the loop's word update; `BitPacker.ShiftWordMasked` shows it is the tail write with rem = 8 |
| BitPacker.ShiftWordMasked | src/server/python/mbserver.py:358-367 | the loop's `b &= ~(0xFF << shift); b \|= v << shift` is the tail write's masked update with all eight bits |
| BitPacker.MaskedWord | src/server/python/mbserver.py:370-382 | the straddling tail write on a two-byte word; its bits are `BitPacker.MaskedWordLo` and `BitPacker.MaskedWordHi` |
| BitPacker.MaskedWordLo | src/server/python/mbserver.py:370-382 | in the low byte of the written word, bits shift .. shift+rem-1 are v's low bits and every other bit is kept |
| BitPacker.MaskedWordHi | src/server/python/mbserver.py:370-382 | in the high byte of the written word, the bits below shift + rem - 8 are v's remaining bits and every other bit is kept |
| BitPacker.MaskedByte | src/server/python/mbserver.py:370-386 | the tail write inside one byte; its bits are `BitPacker.MaskedByteBits` |
| BitPacker.MaskedByteBits | src/server/python/mbserver.py:370-386 | bits shift .. shift+rem-1 of the written byte are v's low bits and every other bit is kept |
| BitPacker.ShiftLoop | src/server/python/mbserver.py:360-368 | the shifting write loop keeps the buffer's length, raises IndexError exactly when value has fewer than c bytes or the buffer fewer than c + 1, and changes no byte outside i .. c |
| BitPacker.SliceAssign | src/server/python/mbserver.py:368-369 | byarray[0:c] = value[0:c] puts the first min(c, len(value)) bytes of value in front and keeps the bytes after the first min(c, len(byarray)) in order behind them, so a short value shortens the buffer |
| BitPacker.WriteTail | src/server/python/mbserver.py:370-386 | the tail write keeps the length, raises IndexError exactly when rem is not 0 and value[c], byte c or, when the tail straddles, byte c + 1 is missing, and changes no byte but c and c + 1 |
| BitPacker.Rewrite | src/server/python/mbserver.py:355-386 | only IndexError is raised; an aligned write of whole bytes never raises, however short value is; an unaligned write with fewer than c value bytes, or a write with a tail and at most c value bytes, raises; an unaligned write keeps the length |
| BitPacker.NegativeTail | src/server/python/mbserver.py:370-386 | with c < 0 the tail write raises IndexError exactly when rem is not 0 and the covering byte or value[c], counted from the end, is missing; otherwise it keeps the length |
| BitPacker.RewriteNegative | src/server/python/mbserver.py:350-386 | with a negative bitcount setbitbytes hands setbytes at most one byte, and raises ValueError exactly when the run starts inside and its covering count is negative |
| BitPacker.RewriteRun | src/server/python/mbserver.py:350-386 | setbitbytes raises ValueError only for a negative bitcount and otherwise only IndexError; an aligned write of whole bytes never raises |
| BitPacker.WriteBits | src/server/python/mbserver.py:338-387 | a setbitbytes that does not raise keeps the length of the data plane |
| BitPacker.WriteBitsStores | src/server/python/mbserver.py:338-387 | in range, with enough value bytes, setbitbytes puts value's bits 0..n-1 at bits o..o+n-1 and keeps every other bit of the buffer |
| BitPacker.RewriteNegativeCases | src/server/python/mbserver.py:350-386 | with a negative bitcount setbitbytes hands setbytes nothing when bitcount is a multiple of 8, raises ValueError or IndexError where _getbytes or value[c] or byarray[c] fails, and otherwise the one covering byte set to the high byte of its masked pair |
| BitPacker.WriteBitsNegative | src/server/python/mbserver.py:350-387 | with a negative bitcount the buffer after setbitbytes is unchanged, the error raised, or the buffer with that one covering byte replaced |
| BitPacker.NegativeExamples | src/server/python/mbserver.py:298-387 | getbitbytearray(0, -1) on one byte raises IndexError; setbitbytes(3, -1, b'\xff') on a zero byte leaves 0x03 in it |
| BitPacker.WriteBitsShort | src/server/python/mbserver.py:360-375 | an unaligned write whose value holds fewer than n bits raises IndexError |
| BitPacker.WriteBitsAlignedShort | src/server/python/mbserver.py:368-369 | an aligned write with a short value stores only the bytes the value has and keeps the rest |
| BitPacker.WriteThenRead | src/server/python/mbserver.py:282-387 | reading a bit run with the corrected `BitPacker.ReadBitsFixed` after writing it gives the run read from the value; as written the round trip holds only for whole bytes (`BitPacker.WriteThenReadWhole`) |
| BitPacker.WriteThenReadWhole | src/server/python/mbserver.py:282-387 | writing 8·len(v) bits of v and reading them back as written gives v, for empty v too |
| BitPacker.WriteThenReadPrefix | src/server/python/mbserver.py:282-387 | writing n whole bytes' bits of a value at least n bytes long and reading them back as written gives the first n bytes of the value |
| BitPacker.ReadThenWrite | src/server/python/mbserver.py:282-387 | writing back the bits just read with the corrected `BitPacker.ReadBitsFixed` changes nothing; for whole bytes the reading as written is the same (`BitPacker.ReadBitsWhole`) |
| BitPacker.GetBitOf | src/server/python/mbserver.py:389-412 | getbit reads False at every bit offset outside the region; inside, it is `BitPacker.GetBitOfBit` |
| BitPacker.GetBitOfBit | src/server/python/mbserver.py:389-412 | inside the region, getbit reads bit bitoffset of the buffer, low bit first |
| BitPacker.SetBitIn | src/server/python/mbserver.py:414-438 | setbit keeps the buffer length |
| BitPacker.SetBitThenGet | src/server/python/mbserver.py:389-438 | after setbit(i, v), getbit(i) is v when byte i//8 is inside the region, and every other bit reads as before; outside the region nothing changes |
| BitPacker.SetBitSame | src/server/python/mbserver.py:414-438 | setbit with the value already there changes nothing |
| Region.StoredHeader | src/server/python/mbserver.py:266-278 | a setbytes outside the region leaves the header as it was |
| Region.StoredHeaderInside | src/server/python/mbserver.py:125-135 | in a region of fewer than 2^32 bytes whose change window lies inside it, _recalcheader after a store keeps the window inside and every field a c_uint |
| Region.StoresKeepWindow | src/server/python/mbserver.py:255-438 | setbytes, setbitbytes and setbit each keep changeByteOffset + changeByteCount within the region's byte count |
| Region.Stored | src/server/python/mbserver.py:255-279 | setbytes keeps the sizes of both planes |
| Region.BitsStored | src/server/python/mbserver.py:338-387 | setbitbytes keeps the sizes of both planes |
| Region.BitSet | src/server/python/mbserver.py:414-438 | setbit keeps the sizes of both planes |
| Region.BitSetEffect | src/server/python/mbserver.py:414-438 | after setbit(i, v), bit i reads v and its mask bit reads set; every other data and mask bit is kept; the header records (i//8, 1), or is kept when i//8 is outside |
| Region.MemoryBlock.Header | src/server/python/mbserver.py:74-78 | abstraction function, no property of its own: the three _head fields as one Header value, the form every method contract uses |
| Region.MemoryBlock.Snap | src/server/python/mbserver.py:83-117 | abstraction function, no property of its own: the two planes and the header as one Snapshot value, the form every mutator's contract uses |
| Region.MemoryBlock.constructor | src/server/python/mbserver.py:89-117 | countbytes is the requested size cut at the segment size; the planes are the segment's first countbytes bytes; the byte order is normalised and the register order kept |
| Region.MemoryBlock.RecalcHeader | src/server/python/mbserver.py:125-135 | the header becomes Merge of the old header with the written run |
| Region.MemoryBlock.GetBytes | src/server/python/mbserver.py:137-147 | returns GetBytesOf of the data plane: the clamped slice, or ValueError for a negative count inside |
| Region.MemoryBlock.SetBytes | src/server/python/mbserver.py:255-279 | the region becomes Stored of the old one: the run copied, its mask bytes 0xFF, the header merged with (offset, c), nothing else changed |
| Region.MemoryBlock.GetBitByteArray | src/server/python/mbserver.py:282-320 | returns ReadBits of the data plane, the reading as written, for every bitcount including negative ones |
| Region.MemoryBlock.SetBitBytes | src/server/python/mbserver.py:338-387 | the region becomes BitsStored of the old one, or is unchanged and the error is returned, for every bitcount including negative ones |
| Region.MemoryBlock.GetBit | src/server/python/mbserver.py:389-412 | returns getbit of the data plane (False outside the region) |
| Region.MemoryBlock.SetBit | src/server/python/mbserver.py:414-438 | the region becomes BitSet of the old one |
| Region.MemoryBlock.GetBitString | src/server/python/mbserver.py:440-460 | returns the 8·bytecount bits read as written, pair-swapped under the big order, or the error of the read |
| Region.MemoryBlock.SetBitString | src/server/python/mbserver.py:462-481 | stores the pair-swapped bytes (big order) as 8·len bits, or returns the error and changes nothing |
| Region.MemoryBlock.GetByteString | src/server/python/mbserver.py:483-501 | returns the clamped bytes, pair-swapped under the big order, or ValueError for a negative count inside |
| Region.MemoryBlock.SetByteString | src/server/python/mbserver.py:503-520 | the region becomes Stored of the pair-swapped bytes at byteoffset |
| Region.MemoryBlock.GetRegString | src/server/python/mbserver.py:522-542 | returns the clamped bytes at 2·regoffset, pair-swapped under the big order, or ValueError for a negative count inside |
| Region.MemoryBlock.SetRegString | src/server/python/mbserver.py:544-563 | the region becomes Stored of the pair-swapped bytes at 2·regoffset |
| Region.SwappedCopy | src/server/python/mbserver.py:35-37 | the swap loop on a copy gives SwapPairs of the input |
| Region.RealignLoop | src/server/python/mbserver.py:305-311 | the realigning loop leaves byte i built from bytes i and i+1 shifted by shift |
| Region.TrimLoop | src/server/python/mbserver.py:312-319 | shifting and masking byte ri and deleting the one after it give TrimWritten, the end of getbitbytearray as written, or IndexError where Python raises it |
| Region.ShiftBytes | src/server/python/mbserver.py:357-367 | the unaligned whole-byte loop of setbitbytes gives ShiftLoop, including its IndexError |
| Region.WriteTailBytes | src/server/python/mbserver.py:370-386 | the tail write of setbitbytes gives WriteTail |
| Region.StoreThenLoad | src/server/python/mbserver.py:137-147 | inside the region, _getbytes returns what setbytes stored, the empty value included |
| Region.StoreKeepsOthers | src/server/python/mbserver.py:255-279 | setbytes keeps every byte outside the stored run |
| Region.ByteStringRoundTrip | src/server/python/mbserver.py:483-520 | getbytestring after setbytestring of the same length gives the bytes back under either byte order |
| Region.BitStringRoundTrip | src/server/python/mbserver.py:440-481 | getbitstring, as written, after setbitstring gives the bytes back under either byte order, the empty string included |
| BitRegion.InRange | src/server/python/mbserver.py:598-836 | a w-bit accessor is in range exactly when 0 <= bitoffset and bitoffset + w <= count |
| BitRegion.Encode | src/server/python/mbserver.py:613-836 | a setter's bytes exist exactly when the value fits the width (signed or not), and are Size(w) long |
| BitRegion.Decode | src/server/python/mbserver.py:598-836 | a getter's value of Size(w) bytes fits the width |
| BitRegion.DecodeEncode | src/server/python/mbserver.py:598-836 | the getter's decoding of the setter's encoding gives the value back, under every byte order and register order |
| BitRegion.EncodeDecode | src/server/python/mbserver.py:598-836 | every byte pattern is the encoding of the value decoded from it |
| BitRegion.GetItemOf | src/server/python/mbserver.py:578-586 | region[index] raises IndexError exactly when index < 0 or index >= count |
| BitRegion.SetItemIn | src/server/python/mbserver.py:588-596 | region[index] = v raises IndexError exactly when index < 0 or index >= count |
| BitRegion.GetIntOf | src/server/python/mbserver.py:598-836 | out of range the getter returns 0 |
| BitRegion.SetIntIn | src/server/python/mbserver.py:613-836 | out of range the setter changes nothing; in range a value that does not fit raises OverflowError |
| BitRegion.GetIntInRange | src/server/python/mbserver.py:598-836 | in range the getter succeeds with a value that fits the width |
| BitRegion.SetThenGetInt | src/server/python/mbserver.py:598-836 | in range, set then get returns the value, for every width, signedness, byte order and register order |
| BitRegion.SetIntKeepsOtherBits | src/server/python/mbserver.py:613-836 | in range, a setter changes only the value's own bits |
| BitRegion.GetThenSetInt | src/server/python/mbserver.py:598-836 | setting the value just read leaves the data plane as it was |
| BitRegion.SetThenGetItem | src/server/python/mbserver.py:578-596 | region[i] = v, then region[p] gives v at p = i and the old bit elsewhere |
| BitRegion.BitsBlock.constructor | src/server/python/mbserver.py:572-575 | the block has (count+7)//8 bytes cut at the segment size, and count is clamped to 8·countbytes |
| BitRegion.BitsBlock.GetItem | src/server/python/mbserver.py:578-586 | returns GetItemOf of the data plane |
| BitRegion.BitsBlock.SetItem | src/server/python/mbserver.py:588-596 | the region becomes SetItemIn of the old one, or stays unchanged with IndexError |
| BitRegion.BitsBlock.GetInt | src/server/python/mbserver.py:598-836 | returns GetIntOf of the data plane |
| BitRegion.BitsBlock.SetInt | src/server/python/mbserver.py:613-836 | the region becomes SetIntIn of the old one, or stays unchanged with the error |
| BitRegion.BitsBlock.GetString | src/server/python/mbserver.py:898-908 | getstring is getbitstring: the bits read as written, or the error |
| BitRegion.BitsBlock.SetString | src/server/python/mbserver.py:910-920 | setstring is setbitstring |
| RegRegion.InRange | src/server/python/mbserver.py:957-1277 | 16/32/64-bit accessors are in range exactly when 0 <= offset and offset + w/16 <= count, and then they touch only bytes inside the plane |
| RegRegion.Reordered | src/server/python/mbserver.py:1129 | the 32- and 64-bit accessors skip swap32 / swap64 only under the little byte order with a register order for which those swaps move nothing (`Codec.Swap32Identity`, `Codec.Swap64Identity`) |
| RegRegion.Swapped16 | src/server/python/mbserver.py:1037-1113 | the struct byte exchange keeps a value within its 16-bit range |
| RegRegion.Swapped16Involution | src/server/python/mbserver.py:1037-1113 | exchanging the bytes of a 16-bit value twice gives it back |
| RegRegion.Encode | src/server/python/mbserver.py:980-1277 | a setter fails exactly for a value that does not fit when it goes through struct (16-bit, big order) or to_bytes (32/64-bit, reordering), and then returns Size(w) bytes |
| RegRegion.Decode | src/server/python/mbserver.py:957-1277 | a getter's value fits the width |
| RegRegion.DecodeEncode | src/server/python/mbserver.py:957-1277 | a value that fits reads back as itself, for every width, byte order and register order |
| RegRegion.EncodeDecode | src/server/python/mbserver.py:957-1277 | every byte pattern is the encoding of the value read from it |
| RegRegion.SetWraps | src/server/python/mbserver.py:1016-1154 | where the setter stores through ctypes without conversion, it succeeds for every value, and the value then reads back reduced modulo 2^(8·size) |
| RegRegion.GetIntOf | src/server/python/mbserver.py:957-1277 | out of range the getter returns 0; the result always fits the width |
| RegRegion.SetIntIn | src/server/python/mbserver.py:980-1277 | out of range the setter changes nothing; a store keeps the plane sizes |
| RegRegion.GetItemOf | src/server/python/mbserver.py:937-945 | region[index] raises IndexError exactly when index < 0 or index >= count |
| RegRegion.SetItemIn | src/server/python/mbserver.py:947-955 | region[index] = v raises IndexError when index < 0 or index >= count |
| RegRegion.SetThenGetInt | src/server/python/mbserver.py:957-1277 | in range, set then get returns the value; bytes outside the value's own are kept, its mask bytes become 0xFF, and the header merges (2·offset, size) |
| RegRegion.GetThenSetInt | src/server/python/mbserver.py:957-1277 | setting the value just read leaves the data plane as it was |
| RegRegion.SetThenGetItem | src/server/python/mbserver.py:935-955 | region[i] = v, then region[i], gives v for every 16-bit v |
| RegRegion.RegsBlock.constructor | src/server/python/mbserver.py:929-935 | the block has 2·count bytes cut at the segment size, and count is clamped to countbytes // 2 |
| RegRegion.RegsBlock.GetItem | src/server/python/mbserver.py:937-945 | returns GetItemOf of the data plane |
| RegRegion.RegsBlock.SetItem | src/server/python/mbserver.py:947-955 | the region becomes SetItemIn of the old one, or stays unchanged with IndexError |
| RegRegion.RegsBlock.GetInt | src/server/python/mbserver.py:957-1277 | returns GetIntOf of the data plane |
| RegRegion.RegsBlock.SetInt | src/server/python/mbserver.py:980-1277 | the region becomes SetIntIn of the old one, or stays unchanged with the error |
| RegRegion.RegsBlock.GetString | src/server/python/mbserver.py:1361-1371 | getstring is getregstring: the clamped bytes, or ValueError for a negative count inside |
| RegRegion.RegsBlock.SetString | src/server/python/mbserver.py:1373-1383 | setstring is setregstring |
| Device.GetIntAt | src/server/python/mbserver.py:1594-1605 | an address of a kind _memdict lacks raises KeyError, and only such an address does; a mapped address out of range reads 0; a mapped address reads a value that fits the width |
| Device.Replaced | src/server/python/mbserver.py:1432-1435 | replacing one region of the table keeps the other three |
| Device.SetIntAt | src/server/python/mbserver.py:1607-1619 | an unmapped kind raises KeyError; out of range nothing changes; every region but the addressed one is kept, and every count still fits |
| Device.SetStringAt | src/server/python/mbserver.py:1877-1891 | an unmapped kind raises KeyError; every region but the addressed one is kept |
| Device.SetThenGetIntAt | src/server/python/mbserver.py:1594-1619 | a typed set then get by address returns the value in every region |
| Device.SetIntAtKeepsOtherRegions | src/server/python/mbserver.py:1432-1435 | a typed set by address changes no read of another region |
| Device.ExcStatusAddress | src/server/python/mbserver.py:1437-1442 | the exception status is always in a mapped region: the given address when its kind is mapped, coil 0 otherwise |
| Device.Field | src/server/python/mbserver.py:58-69 | an unsigned field of the control block is below 2^32 |
| Device.IntField | src/server/python/mbserver.py:58-69 | a c_int field of the control block lies in [-2^31, 2^31) and has the same 32 bits as the c_uint read of those bytes |
| Device.CString | src/server/python/mbserver.py:1450-1455 | the string read at an offset is the NUL-free slice that ends just before the first NUL |
| Device.CStringUnique | src/server/python/mbserver.py:1450-1455 | any NUL-free slice followed by a NUL is exactly the string read there |
| Device.MemDump | src/server/python/mbserver.py:1461-1474 | returns None exactly when offset >= size; raises ValueError exactly for a negative size; otherwise returns the slice at offset of length size (or to the end), clamped at the end |
| Device.MemDumpSplit | src/server/python/mbserver.py:1461-1474 | two adjacent dumps concatenate to the dump of their combined length |
| Device.MemDumpWhole | src/server/python/mbserver.py:1461-1474 | the default dump is the whole segment |
| Device.Attached | src/server/python/mbserver.py:103-117 | a region attached to a segment has planes of the attached size |
| Device.AttachBits | src/server/python/mbserver.py:572-575 | a fresh bit region of (count+7)//8 bytes cut at the segment size, with count cut at 8·countbytes, its planes and header taken from the segment |
| Device.AttachRegs | src/server/python/mbserver.py:929-935 | a fresh register region of 2·count bytes cut at the segment size, with count cut at countbytes//2, its planes and header taken from the segment |
| Device.AttachRegions | src/server/python/mbserver.py:1427-1431 | the four regions are fresh and share no array; each has (count+7)//8 bytes (bit regions) or 2·count bytes (register regions) cut at its segment size, its planes and header taken from the segment, and the device's orders |
| Device.PythonBlock.constructor | src/server/python/mbserver.py:1894-1906 | the cycle counter starts at 0 |
| Device.PythonBlock.IncPyCycle | src/server/python/mbserver.py:1920-1924 | the counter goes up by one and the shared pycycle holds it modulo 2^32 |
| Device.MbDevice.State | src/server/python/mbserver.py:1432-1435 | every region's count fits its planes |
| Device.MbDevice.constructor | src/server/python/mbserver.py:1392-1442 | counts come from the control block, clamped by each region; the orders come from the control block; the four regions are attached and apart, each with (count+7)//8 or 2·count bytes cut at its segment size; the exception status is located; the name is the string at stoDeviceName |
| Device.MbDevice.GetString | src/server/python/mbserver.py:1450-1455 | the scanning loop returns CString at the offset in the string table |
| Device.MbDevice.GetMemDump | src/server/python/mbserver.py:1461-1474 | returns MemDump of the device segment |
| Device.MbDevice.GetInt | src/server/python/mbserver.py:1594-1605 | returns GetIntAt of the device's regions |
| Device.MbDevice.SetInt | src/server/python/mbserver.py:1607-1619 | the regions become SetIntAt of the old ones, or stay unchanged with the error |
| Device.MbDevice.SetString | src/server/python/mbserver.py:1877-1891 | the regions become SetStringAt of the old ones, or stay unchanged with the error |
| Device.MbDevice.GetExcStatus | src/server/python/mbserver.py:1549-1553 | returns the uint8 at the exception-status address, a value in [0, 255] |
| Device.MbDevice.SetExcStatus | src/server/python/mbserver.py:1555-1559 | the regions become the uint8 store at the exception-status address |
| Device.MbDevice.IncPyCycle | src/server/python/mbserver.py:1574-1576 | the python block's counter goes up by one and its pycycle holds it modulo 2^32 |

## Left out

- QSharedMemory attach, detach, lock and unlock, and the ctypes pointer casts are not modelled. Each segment is an owned array or sequence, a lock is a no-op in a sequential model, and the lost-update window between the read and the write of setbitbytes is a concurrency matter.
- getfloat / setfloat / getdouble / setdouble are not modelled, because they use IEEE-754 conversion through `struct`.
- UTF-8 `encode()` / `decode()` are not modelled. String values are their byte sequences, so a decode error on invalid bytes is not modelled.
- `modbus.Address` parsing and the `mbconfig` import are not modelled. They are modules outside this file; an address is taken as a parsed (kind, offset) pair.
- _MbDevice.getstring is not modelled. It calls the region getstring without the byte count the region method requires, so it raises TypeError.
- The path helpers (`getlibpath`, `getprojectpath`, `getprojectfile`), `getmemsize` and the plain counter reads (`getflags`, `getcycle`, `getcount0x`…, `getpycycle`) are not modelled. They only return a stored field.
- src/core/gui/core_ui.cpp and src/client/project/client_builder.cpp are not part of this model.
- The sixteen int8 … uint64 accessors of each region are one accessor parametrised by width and signedness.
- The register stores through c_ushort / c_int / c_longlong pointers are modelled as little-endian byte stores into the data plane, with the mask bytes set to 0xFF. The model assumes a little-endian host.
- Device.MbDevice.GetMemDump: the control segment is an immutable sequence. Writes by the server process during a dump are not modelled.
- Device.MbDevice.GetMemDump: a negative offset is not modelled (the offset is a nat), because Python would index the ctypes pointer before the segment.
- Device.MbDevice.GetString requires a NUL at or after the offset. Without one, the Python loop reads past the segment.
- Device.MbDevice.constructor: the device name is kept as its bytes. The constructor states it as CString of the string table instead of calling the scanning loop.
- Device.MbDevice.constructor: modbus.Address(exceptionStatusRef) is not modelled; the constructor takes the parsed address as a parameter.
- BitPacker.ReadBits: the packing property of the reading as written is proved only where the tail does not straddle a byte (`BitPacker.ReadBitsPacks`). Where it straddles, the reading is wrong (see Findings), and the packing is proved of the corrected `BitPacker.ReadBitsFixed`.
- BitPacker.WriteThenRead: the bit round trip is stated with the corrected `BitPacker.ReadBitsFixed`, because the reading as written fails it where the tail straddles a byte (see Findings). For the reading as written, the round trip is proved for whole bytes only (`BitPacker.WriteThenReadWhole`).
- BitPacker.ReadThenWrite: stated with the corrected `BitPacker.ReadBitsFixed`. The reading as written is proved equal to it for whole bytes only (`BitPacker.ReadBitsWhole`).
- RegRegion.SetItemIn states only the IndexError direction. For an index inside the region it is setuint16, whose effect `RegRegion.SetThenGetItem` states.

## Findings

| source | as written | input that shows it | evidently intended | confidence | as-written member | corrected member |
|---|---|---|---|---|---|---|
| src/server/python/mbserver.py:312-317 | when the bit count is not a multiple of 8, getbitbytearray shifts the last byte right by `shift` again, although the loop at 305-311 has already realigned it; when shift + rem > 8 the high bits of the run are lost | getbitbytearray over the bytes [0xF0, 0x03] with bitoffset 4 and bitcount 6 returns [0x03] instead of [0x3F] | the last byte is only masked to `rem` bits after realignment, so the result packs bits [o, o+n) | not executed | BitPacker.ReadBitsStraddle | BitPacker.ReadBitsFixedPacks |
