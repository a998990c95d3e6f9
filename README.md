# liberatosthene storage core, modelled in Dafny

This project models the storage layer of liberatosthene, a spatiotemporal
octree index written in C, and proves properties of that model.

Points are stored per time bucket. A bucket is a directory holding one
file per scale. Each file is a sequence of node records. A node keeps a
colour and up to eight child offsets of five bytes each. The offset
`2^40 - 1` (five `0xff` bytes) means "no child". A child offset always
points into the file of the next scale.

The model covers:

- **`Common`** (`common.dfy`): the constants of `eratosthene.h`, the status codes, and the little-endian codec of offsets and 64-bit words. It also holds C's truncating division (`CDiv`) and a sequence overlay used to describe buffer writes.
- **`Streams`** (`streams.dfy`): a file as a byte sequence with a cursor. A read past the end is short. A write past the end extends the file, and a write may be cut short at a capacity limit, which models a failing `fwrite`.
- **`Ideal`** (`ideal.dfy`): `le_get_ideal`, the power-of-two growth policy with a clamp.
- **`FixedClass`** (`fixed_class.dfy`): the fixed-table node of `eratosthene-class.c`. It is 44 bytes on disk: colour, a saturating counter, and eight offset slots accessed as masked 8-byte words. It covers the running-mean colour push and the record read, partial read, write and direct readers.
- **`OffsetClass`** (`offset_class.dfy`): the descriptor class documented in `eratosthene-class.h`. A descriptor byte has bit `i` set exactly when offset `i` is stored. Only the active offsets follow it, packed in index order. Setting an inactive index inserts the value and shifts the rest.
- **`MonoVertex`** (`mono_vertex.dfy`): the mono-vertex node of `eratosthene-mclass.c` and `eratosthene-class-mono.c`, which are the same code under two prefixes. It covers the colour accumulators and the truncated mean colour. It covers both the descriptor variants and the fixed-table `_` variants.
- **`PolyVertex`** (`poly_vertex.dfy`): the poly-vertex node of `eratosthene-class-poly.c`. It has a 40-bit link count, a descriptor class and a growable link array. It covers push, resize, and the split read (`io_read_fast` then `io_read_next`).
- **`ByteArray`** (`byte_array.dfy`): the growable byte buffer of `eratosthene-array.c`, with a logical size, a physical size and a framing header.
- **`Walks`** (`walks.dfy`): the scale files of one bucket as `seq<seq<byte>>`, and the specifications of the two tree walks:
  - the insertion of one point (`Inject`);
  - a reference query (`Answer`, via `Locate` and `Reached`) and the query as the system computes it (`SystemAnswer`);
  - the well-formedness invariant: every non-null offset in scale `k` is a record start in scale `k + 1`.
- **`System`** (`system.dfy`): `le_system_*`. It covers the configuration checks, the handshake authorisation table and the bucket stream cache, plus insertion and query over a bucket and the listing of bucket times.
- **`Server`** (`server.dfy`): `le_server_*`. It covers:
  - the configuration checks and the time stack (`set_tenum` / `set_tfree`);
  - nearest-bucket reduction;
  - the record chunking of `inject_client`;
  - the recursive query and the two-slot query dispatch of `query_client`.

Where the code and its documentation disagree, the model follows the code.
The code of `eratosthene-class.h`'s descriptor class is not part of this
model; `OffsetClass` follows that header's doc comments. Macros that no
file defines are named constants:

| macro | value |
|---|---|
| `LE_CLASS_ARRAY` | 44 |
| `LE_CLASS_MASK` | clears the low 40 bits |
| `LE_ARRAY_HEADER` | 9 (an 8-byte size and a mode byte) |
| `LE_ARRAY_SD` | 27 (24 pose bytes and 3 colour bytes) |

Floating-point colour arithmetic is modelled exactly with integers: round
half up for the fixed node and floor division for the mono node. The
denominators are at most 256 and the sums are exact.

## Model

| member | source | states |
|---|---|---|
| Common.Code | src/eratosthene.h:193-204 | a status code is zero exactly for success |
| Common.DecodeEncode | src/eratosthene-class.c:54-59 | decoding the n-byte little-endian encoding of v gives v modulo 256^n |
| Common.EncodeDecode | src/eratosthene-class.c:54-59 | re-encoding a decoded byte string gives it back |
| Common.DecodeSplit | src/eratosthene-class.c:54-59 | a little-endian word is its low k bytes plus 256^k times its high bytes |
| Common.DecodeMask | src/eratosthene-class.c:57 | masking a word to its low k bytes equals decoding those k bytes |
| Common.NullBytes | src/eratosthene.h:168 | five 0xff bytes decode to the null offset |
| Common.Pow256Five | src/eratosthene.h:168 | the null offset is 2^40 - 1 |
| Common.Int64RoundTrip | src/eratosthene.h:146 | an int64 written as 8 two's-complement bytes reads back unchanged |
| Common.CDiv | src/eratosthene-system.c:476 | C division truncates toward zero: floor for a non-negative dividend, minus the floor of the negation otherwise |
| Common.CDivBounds | src/eratosthene-system.c:476 | the truncated quotient lies between 0 and the dividend, and is 0 when the dividend is smaller than the divisor in magnitude |
| Common.CDivExact | src/eratosthene-server.c:677 | a multiple of the divisor divides back exactly, so a reduced time maps back to its bucket |
| Streams.ReadAt | src/eratosthene-class.c:110 | a read returns all n bytes exactly when they exist in the file, and never more than n |
| Streams.ReadWritten | src/eratosthene-class.c:149-172 | bytes written at a position read back from it |
| Streams.ReadBesideWrite | src/eratosthene-system.c:232 | a write leaves every byte range it does not overlap unchanged |
| Streams.WritePartsWhole | src/eratosthene-class-mono.c:255-265 | consecutive writes of several parts within the limit equal one write of their concatenation |
| Streams.Writable | src/eratosthene-class.c:160 | a write is complete exactly when it fits under the capacity limit |
| Ideal.GetIdeal | src/eratosthene.c:44-61 | the doubling loop and the clamp compute IdealSize |
| Ideal.Pow2BitLengthAbove | src/eratosthene.c:47-56 | the loop result 2^bitlength(s) is strictly above s, even when s is a power of two |
| Ideal.Pow2BitLengthLeast | src/eratosthene.c:47-56 | for s > 0, 2^bitlength(s) is at most 2s, the least power of two above s |
| Ideal.IdealSizeBounds | src/eratosthene.c:44-61 | the result is above the size and at least the clamp; it is the clamp or a power of two, and at most twice the size when the clamp allows |
| Ideal.IdealSizeMonotone | src/eratosthene.c:44-61 | a larger request never gets a smaller allocation |
| Ideal.IdealSizeEmpty | src/eratosthene.c:47-59 | for a size <= 0 the result is max(clamp, 1) |
| FixedClass.Slot | src/eratosthene-class.c:54-59 | an offset slot read is at most the null offset |
| FixedClass.CreatedShape | src/eratosthene-class.c:27-38 | a created node holds the given colour, a zero counter and eight null slots |
| FixedClass.Node.Create | src/eratosthene-class.c:27-38 | the constructed buffer is the created node |
| FixedClass.Node.GetOffset | src/eratosthene-class.c:54-59 | returns slot i masked to 40 bits |
| FixedClass.OrWordFits | src/eratosthene-class.c:65-73 | the masked-word update stores v in the low five bytes and keeps the three bytes above |
| FixedClass.SetOffsetThenSlot | src/eratosthene-class.c:65-73 | after setting slot i to v, slot i reads v, every other slot reads as before, and colour and counter are unchanged |
| FixedClass.Node.SetOffset | src/eratosthene-class.c:65-73 | the buffer becomes SetOffsetBytes of the old buffer |
| FixedClass.Mean | src/eratosthene-class.c:78-83 | each channel becomes the weighted mean (w*old + new)/(w+1) rounded half up |
| FixedClass.MeanBetween | src/eratosthene-class.c:78-83 | the new channel lies between the old value and the sample, and equals them when they agree |
| FixedClass.PushEffect | src/eratosthene-class.c:75-93 | a push keeps each channel between old and sample, increments the counter up to 255 and then keeps it, and leaves all slots unchanged |
| FixedClass.ConstantColour | src/eratosthene-class.c:75-93 | pushing a node's own colour n times keeps the colour; the counter becomes min(n, 255) |
| FixedClass.ConstantColourFrom | src/eratosthene-class.c:75-93 | from any counter c, n pushes of the stored colour keep it and leave the counter at min(c + n, 255) |
| FixedClass.Node.SetPush | src/eratosthene-class.c:75-93 | the buffer becomes PushBytes of the old buffer |
| FixedClass.ReadRecord | src/eratosthene-class.c:99-122 | a record read succeeds exactly when 44 bytes exist at the offset, and yields those bytes |
| FixedClass.RecordRoundTrip | src/eratosthene-class.c:149-172 | a record written at o reads back from o |
| FixedClass.Node.IoRead | src/eratosthene-class.c:99-122 | a negative offset is a seek error; otherwise the bytes read overwrite the buffer, and the status is success exactly on a full read, else a read error |
| FixedClass.Node.IoReadF | src/eratosthene-class.c:124-147 | only the offset bytes from byte 4 on are replaced; colour and counter are untouched |
| FixedClass.Node.IoWrite | src/eratosthene-class.c:149-172 | writes the 44 record bytes at o (as many as fit), success exactly on a complete write, else a write error |
| FixedClass.DetOffsetOf | src/eratosthene-class.c:178-202 | the direct offset read is at most the null offset |
| FixedClass.DetOffsetAgrees | src/eratosthene-class.c:178-202 | reading slot i directly at o + 4 + 5i agrees with slot i of the whole record read at o |
| FixedClass.DetOffset | src/eratosthene-class.c:178-202 | returns DetOffsetOf the file and leaves the file unchanged |
| FixedClass.DetData | src/eratosthene-class.c:204-227 | reads exactly the three colour bytes at o; success exactly when all three exist |
| OffsetClass.SetBitOther | src/eratosthene-class.h:174-193 | setting descriptor bit i leaves every other bit unchanged |
| OffsetClass.Pos | src/eratosthene-class.h:99-121 | the stored place of offset i lies inside the offset area after the descriptor |
| OffsetClass.Body | src/eratosthene-class.h:99-121 | the stored body is five bytes per active offset |
| OffsetClass.StoredWithinBody | src/eratosthene-class.h:99-121 | an active offset lies within the body the descriptor announces |
| OffsetClass.Get | src/eratosthene-class.h:159-172 | an offset read is at most the null offset, and is null when its bit is clear |
| OffsetClass.GetStored | src/eratosthene-class.h:159-172 | an offset whose bit is set reads the five bytes stored at its place |
| OffsetClass.CreatedIsEmpty | src/eratosthene-class.h:141-152 | with a zero descriptor every offset reads null |
| OffsetClass.Create | src/eratosthene-class.h:141-152 | zeroes the descriptor byte and nothing else |
| OffsetClass.GetOffset | src/eratosthene-class.h:159-172 | reads at most the null offset, and null when the bit is clear |
| OffsetClass.SetMarks | src/eratosthene-class.h:174-193 | after a set, bit i is on and the value's five bytes sit at its place |
| OffsetClass.SetBytes | src/eratosthene-class.h:174-193 | byte by byte: an active index is overwritten in place; an inactive one sets its bit, inserts the value and shifts later bytes by five |
| OffsetClass.SetThenGetSame | src/eratosthene-class.h:174-193 | after setting offset i to v, offset i reads v modulo 2^40 |
| OffsetClass.SetThenGetOther | src/eratosthene-class.h:174-193 | setting offset i leaves every other offset's value unchanged |
| OffsetClass.OverwriteKeepsOther | src/eratosthene-class.h:174-193 | overwriting an active offset leaves the others unchanged |
| OffsetClass.InsertKeepsOther | src/eratosthene-class.h:174-193 | inserting an inactive offset leaves the others' values unchanged |
| OffsetClass.InsertKeepsBefore | src/eratosthene-class.h:114-118 | an insertion leaves the offsets of lower index in place |
| OffsetClass.InsertMovesAfter | src/eratosthene-class.h:114-118 | an insertion shifts the offsets of higher index five bytes on, with their bytes intact |
| OffsetClass.SetOffset | src/eratosthene-class.h:174-193 | replaces the class inside the buffer by Set of it and leaves the rest of the buffer unchanged |
| OffsetClass.GetDependsOnBody | src/eratosthene-class.h:195-235 | two classes with the same descriptor and body read the same offsets, so transferring them reproduces the class |
| OffsetClass.IoRead | src/eratosthene-class.h:195-214 | reads five bytes per active offset of the descriptor already in the buffer, right after it; success exactly on a full read |
| OffsetClass.IoWrite | src/eratosthene-class.h:216-235 | writes the body (five bytes per active offset) at the cursor; success exactly on a complete write |
| OffsetClass.IoOffsetOf | src/eratosthene-class.h:237-267 | the direct read of offset i is at most the null offset |
| OffsetClass.IoOffsetAgrees | src/eratosthene-class.h:237-267 | reading offset i from a stored descriptor and body gives the class's offset i |
| OffsetClass.IoOffset | src/eratosthene-class.h:237-267 | returns IoOffsetOf the file at the cursor; the file is unchanged |
| MonoVertex.MeanColour | src/eratosthene-mclass.c:249-252 | each stored channel is the accumulated sum divided by the sample count, truncated |
| MonoVertex.MeanBound | src/eratosthene-mclass.c:249-252 | the truncated mean of samples that are bytes is a byte |
| MonoVertex.MeanOfConstant | src/eratosthene-mclass.c:143-153 | n pushes of one colour store that colour back |
| MonoVertex.Node.Create | src/eratosthene-class-mono.c:27-38 | counters zero and an empty descriptor class, so every offset reads null |
| MonoVertex.Node.CreateFixed | src/eratosthene-class-mono.c:40-51 | counters zero and all 40 offset bytes 0xff, so every slot reads null |
| MonoVertex.Node.FillNull | src/eratosthene-mclass.c:46 | fills exactly the offset bytes with 0xff, so every slot reads null |
| MonoVertex.Node.Reset | src/eratosthene-class-mono.c:53-66 | zeroes the counters and the descriptor; every offset reads null |
| MonoVertex.Node.ResetFixed | src/eratosthene-mclass.c:68-81 | zeroes the counters, nulls every slot, keeps the colour bytes |
| MonoVertex.Node.GetOffset | src/eratosthene-class-mono.c:108-113 | reads the class after the colour: at most null, null when the bit is clear |
| MonoVertex.Node.GetOffsetFixed | src/eratosthene-mclass.c:115-120 | reads slot i at byte 3 + 5i, masked to 40 bits |
| MonoVertex.FixedSlot | src/eratosthene-mclass.h:79 | a fixed slot read is at most the null offset |
| MonoVertex.Node.SetOffset | src/eratosthene-class-mono.c:126-131 | offset i reads v modulo 2^40, the others are unchanged, the colour bytes are untouched |
| MonoVertex.Node.SetOffsetFixed | src/eratosthene-mclass.c:133-141 | the masked word store: slot i reads v & null, other slots unchanged |
| MonoVertex.SlotAfterWrite | src/eratosthene-mclass.c:133-141 | after a slot write, that slot reads v modulo 2^40, the others and the colour are unchanged |
| MonoVertex.Node.SetPush | src/eratosthene-mclass.c:143-153 | adds each channel to its accumulator and the count grows by exactly one |
| MonoVertex.Node.IoRead | src/eratosthene-mclass.c:159-177 | as written: reads HEAD+1 bytes and reports the outcome IoReadOutcome |
| MonoVertex.IoReadAlwaysFails | src/eratosthene-mclass.c:165 | as written, the read always reports a read error |
| MonoVertex.WrittenRecordUnreadable | src/eratosthene-class-mono.c:159-177 | as written, a record the node has just written cannot be read back, although the full HEAD+1 bytes are there |
| MonoVertex.Node.IoReadIntended | src/eratosthene-class-mono.c:159-177 | corrected: reads colour and descriptor, then the class body; success exactly when both reads are full |
| MonoVertex.WrittenRecordReadable | src/eratosthene-class-mono.c:159-177 | corrected: a written record reads back as success, and returns its colour and descriptor |
| MonoVertex.Node.IoReadFixed | src/eratosthene-mclass.c:179-197 | reads 43 bytes into the buffer; success exactly when all 43 exist |
| MonoVertex.Node.IoReadFast | src/eratosthene-class-mono.c:199-217 | reads the descriptor at o + 3 and then the class body, leaving the colour bytes untouched |
| MonoVertex.Node.IoReadFastFixed | src/eratosthene-mclass.c:219-237 | reads only the 40 offset bytes at o + 3; the colour bytes are untouched |
| MonoVertex.Node.StoreColour | src/eratosthene-mclass.c:249-252 | the colour bytes become the truncated mean; the rest is unchanged |
| MonoVertex.RecordParts | src/eratosthene-class-mono.c:255-265 | the two writes (colour and descriptor, then the body) form the record |
| MonoVertex.RecordWritten | src/eratosthene-class-mono.c:255-265 | within the limit, the two writes store the whole record at o |
| MonoVertex.Node.WriteRecord | src/eratosthene-class-mono.c:255-265 | writes the record parts at the cursor; success exactly when both writes are complete |
| MonoVertex.Node.IoWrite | src/eratosthene-class-mono.c:239-267 | stores the mean colour, then writes the record at o, or at the cursor when o is null |
| MonoVertex.Node.IoWriteFixed | src/eratosthene-mclass.c:269-297 | stores the mean colour and writes the 43 fixed bytes at o, or at the cursor when o is null |
| MonoVertex.RecordRoundTrip | src/eratosthene-class-mono.c:239-267 | a written record reads back its colour, and each offset read at o + 3 equals the class's offset |
| MonoVertex.IoOffset | src/eratosthene-class-mono.c:299-307 | reads offset i of the class stored at o + 3 |
| MonoVertex.IoOffsetFixedOf | src/eratosthene-mclass.c:309-330 | the direct slot read is at most the null offset |
| MonoVertex.IoOffsetFixed | src/eratosthene-mclass.c:309-330 | reads the five bytes at o + 3 + 5i, null on a short read |
| MonoVertex.FixedRoundTrip | src/eratosthene-mclass.c:309-330 | after writing the fixed record at o, the direct read of slot i gives that slot |
| MonoVertex.IoData | src/eratosthene-mclass.c:332-350 | reads exactly the three colour bytes at o; success exactly when they exist |
| PolyVertex.Node.Create | src/eratosthene-class-poly.c:27-38 | link count 0, capacity 0, no links, every offset null |
| PolyVertex.Node.GetSize | src/eratosthene-class-poly.c:113-121 | the link count is the low 40 bits of the header |
| PolyVertex.Node.SetSize | src/eratosthene-class-poly.c:165-173 | replaces exactly the five count bytes; the count reads s modulo 2^40 |
| PolyVertex.Node.Reset | src/eratosthene-class-poly.c:53-61 | count 0 and an empty class; the links and their capacity are kept |
| PolyVertex.Node.SetMemory | src/eratosthene-class-poly.c:175-197 | a failure returns a memory error with links and capacity unchanged; success sets the capacity to the request and keeps the links' common prefix |
| PolyVertex.ResizedKeeps | src/eratosthene-class-poly.h:278-294 | a resize keeps the prior content up to the new size |
| PolyVertex.Link | src/eratosthene-class-poly.c:133-138 | a link read is at most the null offset |
| PolyVertex.Node.GetLink | src/eratosthene-class-poly.c:133-138 | a link read is at most the null offset |
| PolyVertex.PutThenLink | src/eratosthene-class-poly.c:264-267 | after storing link k, link k reads l modulo 2^40 and every other link is unchanged |
| PolyVertex.LinksAfterPush | src/eratosthene-class-poly.c:245-275 | after growing and storing at index k, link k reads the new link and the earlier links read as before |
| PolyVertex.Node.GetOffset | src/eratosthene-class-poly.c:147-152 | reads the class after the count: at most null, null when the bit is clear |
| PolyVertex.Node.SetOffset | src/eratosthene-class-poly.c:228-233 | offset i reads v modulo 2^40, the others and the count are unchanged |
| PolyVertex.Node.Append | src/eratosthene-class-poly.c:264-270 | stores the link at the count and increments the count |
| PolyVertex.Node.SetPush | src/eratosthene-class-poly.c:245-275 | corrected push: the result is PushIntended; on success the new link reads back and earlier links are unchanged; on failure nothing changes |
| PolyVertex.PushAfterFailureOverruns | src/eratosthene-class-poly.c:251-259 | as written, a failed growth still raises the capacity, so the next push writes past the link memory |
| PolyVertex.PushIntendedStep | src/eratosthene-class-poly.c:245-275 | a corrected push keeps count <= capacity and the links within memory, and a failure changes nothing |
| PolyVertex.PushIntendedSound | src/eratosthene-class-poly.c:245-275 | any sequence of corrected pushes keeps the node sound |
| PolyVertex.Node.LoadClass | src/eratosthene-class-poly.c:414-432 | reads the count and descriptor, then the class body; success exactly when both reads are full |
| PolyVertex.Node.IoReadFast | src/eratosthene-class-poly.c:414-432 | seeks to o and loads the count and class; on success the count is the one read |
| PolyVertex.Node.IoReadNext | src/eratosthene-class-poly.c:454-482 | resizes the links to the count and reads five bytes per link at the cursor; a failed resize is a memory error |
| PolyVertex.Node.IoRead | src/eratosthene-class-poly.c:315-369 | reads what io_read_fast followed by io_read_next reads: count, class, then the links |
| PolyVertex.RecordParts | src/eratosthene-class-poly.h:114-117 | the record is the count and descriptor, the class body, then the links |
| PolyVertex.Node.WriteClass | src/eratosthene-class-poly.c:514-560 | writes the count and descriptor, then the body, at the cursor |
| PolyVertex.Node.WriteRecord | src/eratosthene-class-poly.c:514-560 | writes the record parts; success exactly when every part is complete |
| PolyVertex.Node.IoWrite | src/eratosthene-class-poly.c:514-560 | writes the record at o, or at the cursor when o is null |
| PolyVertex.RecordRoundTrip | src/eratosthene-class-poly.c:514-560 | parts written within the limit read back as header, body and links, and offsets read directly match the class |
| PolyVertex.RecordReadsBack | src/eratosthene-class-poly.c:315-369 | a stored record reads back as header, body and links, and each direct offset read matches the class |
| PolyVertex.IoOffset | src/eratosthene-class-poly.c:600-608 | reads offset i of the class stored at o + 5 |
| ByteArray.Array.Create | src/eratosthene-array.c:28-39 | an empty array whose allocation covers the header when allocation succeeds |
| ByteArray.Array.Set | src/eratosthene-array.c:106-156 | grows the size by n, reallocating to IdealSize(need, 1 MiB) only when too small and keeping the content; a failed allocation restores the size |
| ByteArray.Array.SetSize | src/eratosthene-array.c:158-205 | sets the size, reallocating to exactly size + header only when the allocation is smaller; never shrinks; a failure keeps the size |
| ByteArray.Array.SetAppend | src/eratosthene-array.c:207-226 | corrected append: on success the content is old + appended; on failure it is unchanged; an empty append is a no-op |
| ByteArray.AppendOverruns | src/eratosthene-array.c:207-226 | as written, an append whose growth fails copies past the allocation |
| ByteArray.GetAfterPut | src/eratosthene-array.c:232-250 | a serial SET stores the bytes at the offset and keeps the rest |
| ByteArray.Array.Serial | src/eratosthene-array.c:232-250 | returns offset + length; GET copies the range out, SET copies it in |
| ByteArray.HeaderRoundTrip | src/eratosthene-array.c:81-104 | the header stores the size as an int64 and the mode byte after it; both read back |
| ByteArray.Array.SetHeader | src/eratosthene-array.c:81-89 | writes the header (size, mode) and keeps the content |
| ByteArray.Array.SetArray | src/eratosthene-array.c:91-104 | corrected: restores the size from the header and returns the mode; a negative size or a failed allocation gives LE_MODE_NULL and changes nothing |
| ByteArray.NegativeSizeAccepted | src/eratosthene-array.c:91-104 | as written, a header holding size -1 is accepted and the size becomes -1 |
| ByteArray.HeaderTransfer | src/eratosthene-array.c:81-104 | set_header(m) then set_array returns m and keeps the size and content |
| Walks.Load | src/eratosthene-system.c:397 | a successful node read replaces the 44 record bytes and keeps the padding |
| Walks.SlotAt | src/eratosthene-class.c:54-59 | a slot read in a file is at most the null offset |
| Walks.InjectWalk | src/eratosthene-system.c:176-237 | the scale loop computes Inject |
| Walks.InjectKeepsAbove | src/eratosthene-system.c:199-235 | the walk never rewrites a scale above the one it is at |
| Walks.Locate | src/eratosthene-system.c:336-352 | following the digit prefix ends at a readable record of scale `size` |
| Walks.ReachedPaths | src/eratosthene-server.c:420-478 | every emitted hit has depth `target` and extends the prefix it started from |
| Walks.Descend | src/eratosthene-system.c:329-360 | a successful descent yields a full node buffer |
| Walks.DescendLocate | src/eratosthene-system.c:329-360 | the system's descent succeeds exactly when Locate finds the node, and yields that node's record |
| Walks.ChildOfWellFormed | src/eratosthene-system.c:215-232 | in a well-formed bucket a child slot is null or a record start in the next scale |
| Walks.LocateAligned | src/eratosthene-system.c:336-352 | in a well-formed bucket the located node is a record start |
| Walks.GatherPrefix | src/eratosthene-system.c:367-416 | the gather depends only on the node's record bytes, not on the padding |
| Walks.GatherReached | src/eratosthene-system.c:367-416 | on a well-formed bucket the gather emits exactly the reference hits (Reached), digits in ascending order |
| Walks.GatherFromReached | src/eratosthene-system.c:380-404 | the digit loop from d on emits the reference hits of digits d..7 |
| Walks.GatherChildReached | src/eratosthene-system.c:391-400 | descending into a present child gathers exactly the child's reference hits |
| Walks.SystemAnswerAgrees | src/eratosthene-system.c:315-365 | on a well-formed bucket the system query equals the reference answer |
| Walks.LocateInjected | src/eratosthene-system.c:176-237 | after an insertion the inserted digit path is present down to the last scale |
| Walks.InjectedRecord | src/eratosthene-system.c:199-232 | each scale of an insertion leaves a readable record whose slot for the digit points to where the next scale continues |
| Walks.InjectFound | src/eratosthene-system.c:176-237 | a full-depth query for the inserted digits returns exactly one hit, on that path |
| Walks.VisitChild | src/eratosthene-system.c:199-215 | the node visited (read or created) has null or well-placed child slots |
| Walks.WrittenChild | src/eratosthene-system.c:215-232 | a slot of the written node is null, well placed, or the new child at the next scale's end of file |
| Walks.VisitKeepsLinks | src/eratosthene-system.c:199-235 | one scale step keeps all links well formed except the pending one, which points at the next record or the end of file |
| Walks.InjectKeepsLinks | src/eratosthene-system.c:176-237 | the rest of the walk ends in a well-formed bucket |
| Walks.InjectWellFormed | src/eratosthene-system.c:176-237 | an insertion keeps every non-null offset pointing to a record start of the next scale |
| Walks.InjectGrowth | src/eratosthene-system.c:221-232 | each scale file grows by nothing or by exactly one record |
| System.ConfigStatus | src/eratosthene-system.c:58-71 | success exactly when 0 < sparam < 40 and tparam > 0; the depth is checked first, then the time |
| System.CreateStatus | src/eratosthene-system.c:27-79 | a missing file is an access error, an unreadable one a read error, otherwise the range checks decide |
| System.System.constructor | src/eratosthene-system.c:27-79 | a configured system with format 64S and no stream open |
| System.Authorise | src/eratosthene-system.c:116-170 | IMOD only with 64S, QMOD with 64S or 64R, AMOD only with 64T, SMOD and TMOD always; anything else is refused |
| System.System.SetFormat | src/eratosthene-system.c:116-170 | stores hand >> 8 as the format unconditionally, then authorises the mode in the low byte |
| System.Opened | src/eratosthene-system.c:482-504 | the first `opens` scales are open on the key, the next one failed, the rest unchanged |
| System.Open | src/eratosthene-system.c:467-509 | corrected: success exactly when the cached key matches (and is not null) or every scale opens; success leaves all scales open on the key |
| System.OpenAsWrittenStale | src/eratosthene-system.c:476-479 | as written, a failed open still caches the key, so the next call reports success with a scale stream missing |
| System.OpenRetries | src/eratosthene-system.c:467-509 | corrected: after a failed open a second call reopens and leaves every scale open |
| System.System.IoOpenAsWritten | src/eratosthene-system.c:467-509 | key = time / tparam truncated; the result is OpenAsWritten, and the bucket directory is created unless the key is cached |
| System.System.IoOpen | src/eratosthene-system.c:467-509 | key = time / tparam truncated; the result is Open; on success the bucket exists |
| System.Bucket | src/eratosthene-system.c:485 | a new bucket directory starts with one empty file per scale, and existing buckets are kept |
| System.DigitRun | src/eratosthene-system.c:446 | strtoull consumes the longest prefix of decimal digits |
| System.StrToULL | src/eratosthene-system.c:446 | the converted value fits 64 bits |
| System.DecimalValue | src/eratosthene-system.c:446 | a number's decimal name converts back to it |
| System.BucketNameRead | src/eratosthene-system.c:446 | a bucket directory name converts back to its key |
| System.Wrap64 | src/eratosthene-system.c:446 | the unsigned product stored into an int64 wraps modulo 2^64 |
| System.TimesOf | src/eratosthene-system.c:440-453 | one time per directory entry, at most as many as entries |
| System.DotsListed | src/eratosthene-system.c:440-453 | "." and ".." are directories and are listed, as time 0 |
| System.BucketListed | src/eratosthene-system.c:440-453 | a bucket directory n is listed as tparam * n |
| System.System.Times | src/eratosthene-system.c:422-461 | the listing is TimesOf the directory entries |
| System.GatherNode | src/eratosthene-system.c:367-416 | the recursive gather computes Gather |
| System.GatherChild | src/eratosthene-system.c:384-404 | one digit step of the gather loop appends exactly that digit's share of Gather |
| System.DescendNodes | src/eratosthene-system.c:336-355 | the do-while descent finds the node exactly when Descend does, and returns it |
| System.System.Inject | src/eratosthene-system.c:176-237 | corrected: opens the bucket with the corrected Open and, when the open succeeds, applies Inject to its files |
| System.System.Query | src/eratosthene-system.c:315-365 | corrected: returns nothing when size + depth >= sparam or the corrected Open fails, else SystemAnswer on the bucket |
| Server.SetConfigStatus | src/eratosthene-server.c:520-583 | success exactly when two values are read, 0 < scfg < 40 and tcfg > 0 |
| Server.SetConfigAgrees | src/eratosthene-server.c:520-583 | the server applies the same checks as le_system_create |
| Server.Server.constructor | src/eratosthene-server.c:27-89 | an unconfigured server with an empty time stack |
| Server.Server.SetConfig | src/eratosthene-server.c:520-583 | returns SetConfigStatus; stores the values read; the path keeps "/system" on every error path |
| Server.StrToIMax | src/eratosthene.h:247 | the converted time fits int64 |
| Server.TimeNameRead | src/eratosthene-server.c:617 | a bucket's name converts back to its time and does not start with '.' |
| Server.StackAppend | src/eratosthene-server.c:600-620 | enumerating two entry lists stacks their times one after the other |
| Server.StackStep | src/eratosthene-server.c:600-620 | each entry adds its time exactly when it is a directory not starting with '.' |
| Server.StackPrefix | src/eratosthene-server.c:585-629 | the stack after i entries is a prefix of the full stack |
| Server.StackOfBuckets | src/eratosthene-server.c:585-629 | the bucket directories are stacked in enumeration order |
| Server.StackOfRoot | src/eratosthene-server.c:585-629 | "." and ".." are skipped |
| Server.Server.SetTenum | src/eratosthene-server.c:585-629 | appends the listed times in order while allocations succeed; a failed allocation is a memory error |
| Server.Server.SetTfreeAsWritten | src/eratosthene-server.c:631-644 | as written: empties the stack and frees the block without forgetting it |
| Server.TfreeThenTenumAsWritten | src/eratosthene-server.c:631-644 | as written, set_tfree then set_tenum reallocates a freed block |
| Server.Server.SetTfree | src/eratosthene-server.c:631-644 | corrected: empties the stack and forgets the block |
| Server.Server.Restack | src/eratosthene-server.c:269-273 | corrected: set_tfree then set_tenum, from any state of the stack block: the stack becomes the listed times in order, as many as the allocations allow, with a memory error exactly when some allocation fails |
| Server.Nearest | src/eratosthene-server.c:650-679 | the chosen index is within the stack |
| Server.NearestMinimal | src/eratosthene-server.c:650-679 | the chosen bucket minimises the distance; ties go to the lowest index; none is chosen when every distance reaches the int64 maximum |
| Server.ReducedBucket | src/eratosthene-server.c:650-679 | on unbounded integers, the reduced time maps back to the chosen bucket's key, or to the null time when none is chosen |
| Server.Server.Reduce | src/eratosthene-server.c:650-679 | the running-minimum loop computes ReducedTime, the product with tcfg taken on unbounded integers |
| Server.RecordData | src/eratosthene-server.c:246 | a record's colour is its three bytes after the pose |
| Server.Split | src/eratosthene-server.c:240-246 | the buffer splits into whole 27-byte records whose concatenation is the buffer |
| Server.FlattenAppend | src/eratosthene-server.c:240-246 | flattening distributes over concatenation |
| Server.Step | src/eratosthene-server.c:234-262 | corrected round: whole records and pending bytes keep every byte received; data resets the retry count, no data increments it |
| Server.Run | src/eratosthene-server.c:234-262 | any run of corrected rounds keeps fewer than 27 bytes pending and only whole records |
| Server.RunKeepsBytes | src/eratosthene-server.c:234-262 | records plus pending bytes are exactly the bytes received |
| Server.ClosedLivelock | src/eratosthene-server.c:234-262 | as written, with a partial record pending, a closed socket resets the retry count forever |
| Server.ClosedStepAsWritten | src/eratosthene-server.c:237-262 | as written, one closed read with bytes pending resets the retry count and changes nothing else |
| Server.FailedDropsByte | src/eratosthene-server.c:237 | as written, a failed read with two bytes pending drops one of them |
| Server.ClosedEnds | src/eratosthene-server.c:234-262 | corrected, each closed read counts as a retry, so the loop ends |
| Server.HandOn | src/eratosthene-server.c:240-259 | hands on the whole records of the buffer and carries the count % 27 leftover bytes to the start |
| Server.StepGot | src/eratosthene-server.c:240-259 | a round with data injects the whole records and keeps the remainder |
| Server.ClientRound | src/eratosthene-server.c:237-262 | one loop round performs Step |
| Server.ClientLoop | src/eratosthene-server.c:234-262 | corrected: the loop state is Run over the reads consumed; it stops only when the reads run out or the retries are used up, and every earlier round was below the retry limit |
| Server.InjectRecords | src/eratosthene-server.c:242-248 | injecting the records in order computes InjectAll |
| Server.InjectAllStep | src/eratosthene-server.c:242-248 | each record is injected once, after the ones before it |
| Server.InjectGrows | src/eratosthene-server.c:277-335 | one insertion grows each scale file by at most one record |
| Server.InjectAllWellFormed | src/eratosthene-server.c:189-275 | injecting a whole transfer keeps the bucket well formed and grows each file by at most one record per point |
| Server.QueryNode | src/eratosthene-server.c:420-478 | follows the prefix while parse < size, then emits the reference hits below the node |
| Server.QueryChildren | src/eratosthene-server.c:456-472 | the digit loop emits the reference hits of digits 0..7 in order |
| Server.Query | src/eratosthene-server.c:420-478 | the recursive query returns the reference Answer |
| Server.Server.QueryTime | src/eratosthene-server.c:372-388 | one slot: reduces the time, then queries the bucket of the reduced time |
| Server.Server.QueryClient | src/eratosthene-server.c:341-418 | abandons when size + span >= scfg; otherwise mode bit 0x01 queries time slot 0 and bit 0x02 slot 1, each on its reduced time, into one answer with slot 0 first |
| Server.Server.InjectClient | src/eratosthene-server.c:189-275 | corrected: without a time or stream nothing changes; otherwise the reads are consumed until they run out or `_LE_USE_RETRY` rounds in a row bring no data (every earlier round below that limit), every whole record of those reads is injected, in order, into the bucket, and the stack is rebuilt by Restack |

## Left out

- Sockets, the accept loop, the array socket transfer (`le_array_io_read`/`le_array_io_write`) and `le_server_config_client`: I/O plumbing. A socket is modelled as a sequence of reads (`Got`, `Closed`, `Failed`).
- Threads and mutexes of the server: concurrency, with no locking to model.
- Filesystem mechanics (`fopen` modes, `mkdir`, `opendir`/`readdir`, path building, `fscanf`, `stat`): files are byte sequences, directory listings are given entry lists, and the configuration file is given as the values read. Whether `fopen` succeeds is a parameter (`opens`), as is whether an allocation succeeds (`allocOk`, `allocs`).
- The address module (pose, digits, times, mode, span): digits are an input `seq<nat>` with values below 8. The pose is opaque: an emitted record is a `Hit` (digit path and colour) rather than serialised pose bytes, and `InjectClient` takes the record-to-digits mapping as a function.
- `le_stream_create`/`le_stream_get`/`le_stream_delete` of the server are not part of this model. A server query or insertion works on the bucket of key `time / tcfg`; a query on an absent bucket finds nothing (`BucketAnswer`).
- Server.Server.InjectClient: the interleaving of socket reads with insertions is modelled as the reads first and then the insertions in the same order; the bucket then sees the same sequence of insertions.
- System.Open: the `static` cached key of `le_system_io_open` is modelled per system object rather than shared by all systems of the process.
- `le_system_io_flush` and `le_system_io_close`: buffering is not modelled; every write is visible at once.
- `le_system_query2`: legacy code, modelled by `le_system_query` and `query_gather` instead.
- `eratosthene-operator.c` and the commented-out functions of `eratosthene-class-poly.c`: experimental or dead code.
- PolyVertex.Node.GetLink: reads five bytes per link; the source reads an 8-byte word at a 5-byte stride, which can run three bytes past an exact `io_read` allocation.
- Server.Nearest: distances are computed on unbounded integers; an int64 overflow of `sv_time[i] - t` is not modelled.
- Server.Server.Reduce: the stored time `rtime * tcfg` (`eratosthene-server.c:677`) is computed on unbounded integers. In C the product is a signed int64 multiplication: with an empty stack it is `_LE_TIME_NULL * tcfg`, which overflows (undefined behaviour) for every `tcfg >= 2`, and a large stack time can overflow the same way. Server.Server.QueryTime and Server.Server.QueryClient pass that unbounded value on as the reply time.
- Server.ReducedBucket: holds for unbounded integers only; with the int64 overflow above the source's reduced time has no defined value, so it does not map back to the null time.
- System.System.Inject: composes the corrected System.Open (via System.System.IoOpen), which caches the key only once every scale opened. As written (`eratosthene-system.c:476-504`, modelled by System.OpenAsWrittenStale), an insertion after a failed open of the same bucket gets success with a null stream.
- System.System.Query: composes the corrected System.Open in the same way; as written, a query after a failed open of the same bucket reads through a null stream.
- Server.Server.InjectClient: composes the corrected loop Server.ClientLoop (Server.Step), which counts a closed or failed read as a retry, and the corrected Server.Server.Restack (Server.Server.SetTfree). As written (`eratosthene-server.c:237`, modelled by Server.ClosedLivelock and Server.FailedDropsByte), a pending partial record makes a closed socket loop forever and a failed read drops a byte.
- ByteArray.Array.Set: requires the new size to stay within int64; size overflow is not modelled.
- Server.Server.SetConfig: the path suffix is modelled as the string "/system"; its length bound `_LE_USE_PATH` is not modelled.
- System.StrToULL: leading white space and signs accepted by `strtoull` are not modelled; names are read as digit runs.
- The numeric values of the modes (`LE_MODE_*`) and array formats (`LE_ARRAY_64*`) are distinct named constants; their values do not affect any property.

## Findings

| source | as written | input that shows it | evidently intended | confidence | as-written member | corrected member |
|---|---|---|---|---|---|---|
| src/eratosthene-mclass.c:165 | reads HEAD+1 bytes but compares the count with FIXED+1; `eratosthene-class-mono.c:165` is the same | any record, including one just written by `io_write` | compare with HEAD+1 | not executed | MonoVertex.WrittenRecordUnreadable | MonoVertex.WrittenRecordReadable |
| src/eratosthene-class-poly.c:254 | `pc_size` is incremented before the reallocation and stays incremented when it fails | push on an empty node with allocation failing, then a push that succeeds: the second push writes link 0 with no link memory | raise the capacity only on success | not executed | PolyVertex.PushAfterFailureOverruns | PolyVertex.PushIntendedSound |
| src/eratosthene-array.c:219 | the result of `le_array_set` is ignored and `memcpy` runs anyway | append one byte to an empty array when the allocation fails | stop when the growth fails | not executed | ByteArray.AppendOverruns | ByteArray.Array.SetAppend |
| src/eratosthene-array.c:94 | the size stored in the header is passed to `le_array_set_size` unchecked | a header holding -1: the allocation looks large enough and the size becomes -1 | refuse a negative size | not executed | ByteArray.NegativeSizeAccepted | ByteArray.Array.SetArray |
| src/eratosthene-system.c:479 | the cached key is updated before the scale streams are opened | `io_open(t)` fails at scale 0; a second `io_open(t)` reports success with no stream open | cache the key only after every stream opened | not executed | System.OpenAsWrittenStale | System.OpenRetries |
| src/eratosthene-server.c:237 | the pending bridge is added to the read count, so a closed socket still counts as data | the client closes with a partial record pending: `read` returns 0 forever and the retry count stays at 0 | count only new bytes toward the retries | not executed | Server.ClosedLivelock | Server.ClosedEnds |
| src/eratosthene-server.c:237 | a failed `read` (-1) is added to the bridge | two bytes pending and a failed read: the count is 1 and one pending byte is lost | treat a failed read as no data | not executed | Server.FailedDropsByte | Server.RunKeepsBytes |
| src/eratosthene-server.c:634-642 | `set_tfree` frees `sv_time` without resetting it | `set_tfree` then `set_tenum` with one bucket directory reallocates the freed block | reset `sv_time` after freeing it | not executed | Server.TfreeThenTenumAsWritten | Server.Server.Restack |
