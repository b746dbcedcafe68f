# Minidump memory segments in Dafny

This project models how the `minidump` Python package turns the two memory
streams of a Windows crash dump into memory segments. It also models how it
reads and searches those segments. The two streams are MINIDUMP_MEMORY_LIST
(stream 5) and MINIDUMP_MEMORY64_LIST (stream 9). A segment maps one range of
virtual addresses onto one region of the dump file.

Modules:

- `Bytes` (`bytes.dfy`):
  - unsigned little-endian integers (`int.from_bytes` / `int.to_bytes`) as
    `DecodeLE` / `EncodeLE`, with both round trips;
  - the clamped short read of a Python file or `BytesIO` (`Slice`), and an
    in-memory reader value `Reader(data, pos)` that the decoders thread through;
  - `bytes.find` (`Find`) with its leftmost-match property.
- `CommonStructs` (`common_structs.dfy`):
  - the 32- and 64-bit location descriptors and their decoders;
  - `ParseRecords`, a decoder for an array of fixed-size records;
  - the dump file as a class with a shared cursor (`FileHandle`: `tell`,
    `seek`, `read`);
  - the segment (`Segment`) with `inrange`, `validate_address`, `read` and
    both modes of `search`. The chunked first-match loop and the all-matches
    loop are methods proved against declarative specifications.
- `SearchExamples` (`common_structs.dfy`): worked examples of both search
  modes on concrete bytes.
- `MemoryListStream` (`memory_list_stream.dfy`):
  - MINIDUMP_MEMORY_DESCRIPTOR and MINIDUMP_MEMORY_LIST, their decoders and
    encoders;
  - the segment list `MinidumpMemoryList.parse` builds from a stream's bytes.
- `Memory64ListStream` (`memory64_list_stream.dfy`):
  - MINIDUMP_MEMORY_DESCRIPTOR64 and MINIDUMP_MEMORY64_LIST, their decoders
    and encoders, with round trips;
  - `from_chunk_data`, whose loop gives each segment its file offset from a
    running sum of the sizes of the ranges before it.

`parse_mini` and `parse_full` are class methods of the segment in
`common_structs.py`, but here `ParseMini` and `ParseFull` live in the stream
modules. They take the streams' descriptor types, and `CommonStructs` cannot
import the stream modules without an import cycle.

Integers are unbounded, as in Python. The fields of the records and
segments (sizes, start addresses, file offsets, counts) are natural numbers:
each is decoded from unsigned bytes or computed from such values. Three
arguments come from the caller instead, and a caller could make them
negative:

- The virtual address passed to `inrange`, `validate_address` and `read` is
  an `int`. A negative address is in no segment, and `validate_address`
  reports the wrong segment (`NegativeAddressRejected`).
- The size passed to a `read` is an `int`. A negative size reads to the end
  of the file, as Python's `read` does.
- The chunk size of `search` is a natural number (see "Left out").

Exceptions are modelled as values:
`Outcome` / `Result` with `WrongSegment` and `CrossesBoundary`.

Where the code departs from the documented record layouts and error
handling, the model follows the code:

- The simple descriptor's `parse` reads the 8-byte location first, then an
  8-byte start address (16 bytes). Its `to_bytes` writes a 4-byte start
  address, then the location (12 bytes with a 32-bit location). The two are therefore not inverses.
  `DescriptorBytesRotated` states exactly how they disagree.
- Short input is not an error. A read past the end returns fewer bytes, and
  they decode to a smaller number (0 for none). `ReadFieldShort` and
  `Location32Truncated` state this. Likewise a segment `read` near the end of
  the file returns fewer than `n` bytes.
- A segment `read` with a negative size passes `validate_address` whenever
  the address lies in [start, end]. It then returns everything from that
  offset to the end of the file, past the segment's end.
- The all-matches search reports overlapping matches. It resumes one byte
  after each match. Its loop guard is the strict `len(data) > len(pattern)`,
  so a match in the very last window is reported only when the scan did not
  resume exactly there. `Reported` characterises the result.
- The running file offset of the 64-bit list is an unbounded sum. There is
  no overflow error.

## Model

| member | source | states |
|---|---|---|
| Bytes.DecodeLE | minidump/common_structs.py:26-27 | a field decoded from k bytes is below 256^k |
| Bytes.DecodeEncode | minidump/common_structs.py:19-28 | decoding the k-byte little-endian encoding of n gives back n |
| Bytes.EncodeDecode | minidump/common_structs.py:19-28 | encoding the decoded value of k bytes in k bytes gives back those bytes |
| Bytes.EncodeLE | minidump/common_structs.py:19-21 | `n.to_bytes(k)` gives exactly k bytes; with DecodeEncode and EncodeDecode it is the inverse of DecodeLE |
| Bytes.Slice | minidump/common_structs.py:143 | a read of n bytes returns at most n: exactly the n bytes at p when the data holds them, otherwise everything from p to the end (Min(n, len - p) bytes), and nothing when p is past the end |
| Bytes.Reader.Read | minidump/streams/MemoryListStream.py:28 | a BytesIO read leaves the data unchanged, returns Slice's bytes at the cursor and advances the cursor by exactly the number of bytes it returned |
| Bytes.Find | minidump/common_structs.py:172 | the result is -1 or an index where the pattern occurs; an empty pattern is found at 0 |
| Bytes.FindLeftmost | minidump/common_structs.py:186 | `find` returns -1 exactly when the pattern occurs nowhere; otherwise no occurrence lies before the one it returns |
| CommonStructs.LocationDescriptor.ToBytes | minidump/common_structs.py:19-21 | the encoding has `get_size()` bytes (8 or 16); DataSize decodes from the first half and Rva from the second |
| CommonStructs.LocationDescriptor.GetSize | minidump/common_structs.py:15-17 | `get_size` is two fields of the descriptor's width: 8 bytes for the 32-bit form, 16 for the 64-bit one (lines 46-48) |
| CommonStructs.ReadField | minidump/common_structs.py:26 | a field read decodes the next w bytes and advances by w when they are present, otherwise stops at the end of the data |
| CommonStructs.ReadFieldShort | minidump/common_structs.py:26 | with fewer than w bytes left, a field decodes what is left (0 for nothing) and the reader stops at the end of the data, or stays where it is when already past it |
| CommonStructs.Location32Truncated | minidump/common_structs.py:23-28 | with 4 to 7 bytes left, DataSize comes from 4 bytes and Rva from the rest; at the end of the data the descriptor is (0, 0) and nothing is consumed |
| CommonStructs.ParseLocation32 | minidump/common_structs.py:23-28 | parse reads DataSize from bytes 0-3 and Rva from bytes 4-7 and consumes 8 bytes, or the rest of the data |
| CommonStructs.ParseLocation64 | minidump/common_structs.py:54-59 | the same with two 8-byte fields and 16 bytes consumed |
| CommonStructs.Location32RoundTrip | minidump/common_structs.py:15-28 | parse of the stored `to_bytes` gives the descriptor back and consumes exactly `get_size()` = 8 bytes |
| CommonStructs.Location64RoundTrip | minidump/common_structs.py:46-59 | the same for the 64-bit form, 16 bytes |
| CommonStructs.ParseRecords | minidump/streams/MemoryListStream.py:31-32 | decoding n records yields exactly n of them |
| CommonStructs.ParseRecordsConsumes | minidump/streams/Memory64ListStream.py:39-42 | n records of 16 bytes consume 16 * n bytes, or the rest of the data |
| CommonStructs.ParseRecordsAt | minidump/streams/Memory64ListStream.py:39-42 | when all n records are present, record i is the one decoded at offset 16 * i |
| CommonStructs.FileHandle.Tell | minidump/common_structs.py:140 | `tell` returns the cursor |
| CommonStructs.FileHandle.Seek | minidump/common_structs.py:142 | `seek` sets the cursor and nothing else |
| CommonStructs.FileHandle.Read | minidump/common_structs.py:143 | `read(n)` returns the clamped slice at the cursor, or for a negative n everything up to the end of the file, and advances the cursor by its length |
| CommonStructs.Segment.InRange | minidump/common_structs.py:127-128 | an address, negative ones included, is in range exactly when a one-byte read there passes `validate_address` |
| CommonStructs.NegativeAddressRejected | minidump/common_structs.py:127-132 | a negative address is in no segment, and `validate_address` reports the wrong segment for it, whatever the size |
| CommonStructs.Segment.Contents | minidump/common_structs.py:161-181 | the segment's bytes as the file holds them: the `size` bytes from start_file_address when the file holds them, otherwise everything from there to the end of the file |
| CommonStructs.Segment.ValidateAddress | minidump/common_structs.py:130-135 | for any integer address and size: passes iff start <= va <= end and va + n <= end; reports WrongSegment iff the first test fails (so for every negative address), CrossesBoundary iff only the second does |
| CommonStructs.Segment.Read | minidump/common_structs.py:137-145 | an invalid request, a negative address included, fails with validate_address's error before the cursor moves; a valid one returns the n bytes at start_file_address + (va - start), which are the segment's own bytes from offset va - start; a valid read with a negative n returns everything from that file offset to the end of the file; the cursor is restored on both paths |
| CommonStructs.Segment.Search | minidump/common_structs.py:157-196 | find_first defaults to false and chunksize to 50 * 1024; the cursor is restored on every exit; with find_first the result is [start + leftmost match in the segment's bytes] or [] (also for an empty segment); otherwise the start-shifted ScanOffsets of the segment's bytes |
| CommonStructs.Segment.FirstMatch | minidump/common_structs.py:163-178 | the cursor is left inside the segment's bytes; reading clamped chunks and searching all bytes read so far finds the leftmost match of the whole segment, whatever the chunk size, also when the file ends inside the segment but its bytes contain the pattern |
| CommonStructs.Segment.ReadChunk | minidump/common_structs.py:169-173 | one chunk read keeps `data` a prefix of the segment's bytes with the cursor just after it; a match in `data` is the leftmost of the whole segment, and without one `data` has grown |
| CommonStructs.ChunkRound | minidump/common_structs.py:169-176 | the same three facts about one round, stated on the file's bytes |
| CommonStructs.ChunkProgress | minidump/common_structs.py:167-173 | a round that finds nothing has read at least one byte, on every input the preconditions admit, so the loop ends |
| CommonStructs.ChunkExtends | minidump/common_structs.py:169-171 | each chunk read continues the segment's bytes, so `data` is always a prefix of them; a chunk shorter than asked for means `data` now holds all of them |
| CommonStructs.FirstInPrefix | minidump/common_structs.py:172-176 | the leftmost match in a prefix of the segment is the leftmost match of the whole segment |
| CommonStructs.ScanAll | minidump/common_structs.py:180-193 | the all-matches loop returns exactly the reported offsets, in increasing order, shifted by the start address |
| CommonStructs.ScanAdvance | minidump/common_structs.py:186-191 | one round appends the next reported offset, and the remaining data is the suffix after the match |
| CommonStructs.ScanStep | minidump/common_structs.py:186-191 | the leftmost match in the suffix from `offset` is the next reported offset, and none lies between |
| CommonStructs.ScanStops | minidump/common_structs.py:187-188 | when the suffix has no match, the offsets found so far are the whole result |
| CommonStructs.ScanExhausted | minidump/common_structs.py:185 | when no more bytes remain than the pattern has, the offsets found so far are the whole result |
| CommonStructs.Shifted | minidump/common_structs.py:189 | the reported address k is the start address plus offset k |
| CommonStructs.ShiftedAppend | minidump/common_structs.py:189 | appending an offset appends its virtual address |
| CommonStructs.NewSegment | minidump/common_structs.py:97-105 | construction sets the three fields and end_virtual_address = start + size |
| CommonStructs.InRangeIff | minidump/common_structs.py:127-128 | `inrange` is the half-open range [start, start + size); a size-0 segment contains no address |
| CommonStructs.ValidReadInRange | minidump/common_structs.py:127-135 | a validated non-empty read touches only addresses `inrange` accepts |
| CommonStructs.NoOccurrence | minidump/common_structs.py:158-159 | a pattern longer than the segment occurs nowhere in it, so nothing is reported |
| CommonStructs.NoneReported | minidump/common_structs.py:185-193 | when nothing at or after lo is reported, the offsets below lo are the whole result |
| CommonStructs.MatchesUnchanged | minidump/common_structs.py:185-193 | offsets that are not reported leave the result unchanged |
| CommonStructs.MatchesBelowMembers | minidump/common_structs.py:185-191 | the offsets below hi are exactly the reported ones below hi, strictly increasing |
| CommonStructs.ScanOffsetsSpec | minidump/common_structs.py:185-191 | the all-matches result holds exactly the reported offsets, strictly increasing |
| CommonStructs.InnerOccurrencesReported | minidump/common_structs.py:185-191 | every occurrence that does not end at the last byte is reported, overlapping ones included |
| CommonStructs.LastWindowSkipped | minidump/common_structs.py:185 | a match in the last window is not reported when the data is the pattern or the pattern also occurs one byte earlier |
| SearchExamples.StraddlingMatchFound | minidump/common_structs.py:167-176 | "BCC" in "AABCCDD" is found at offset 2 |
| SearchExamples.OverlappingMatches | minidump/common_structs.py:184-191 | "ABA" in "ABABA" gives offsets [0, 2] |
| SearchExamples.LastWindowAfterMatchSkipped | minidump/common_structs.py:185-191 | "AA" in "AAAA" gives [0, 1], not [0, 1, 2] |
| SearchExamples.WholeSegmentMatchSkipped | minidump/common_structs.py:185 | a segment whose bytes are exactly the pattern reports nothing |
| MemoryListStream.MemoryDescriptor.ToBytes | minidump/streams/MemoryListStream.py:52-54 | the encoding has 4 + the location's size bytes (12 for a 32-bit location) |
| MemoryListStream.DescriptorBytesFields | minidump/streams/MemoryListStream.py:52-54 | bytes 0-3 hold StartOfMemoryRange, the rest are the location's own encoding |
| MemoryListStream.ParseMemoryDescriptor | minidump/streams/MemoryListStream.py:56-71 | parse consumes 16 bytes: DataSize from bytes 0-3, Rva from 4-7 (through a 32-bit location), StartOfMemoryRange from 8-15; DataSize and Rva equal the location's |
| MemoryListStream.DescriptorBytesRotated | minidump/streams/MemoryListStream.py:52-71 | parse of `to_bytes` reads the start as DataSize, DataSize as Rva and Rva as the start, and stops after 12 bytes |
| MemoryListStream.MemoryList.Serialized | minidump/streams/MemoryListStream.py:20-24 | the first 4 bytes hold len(MemoryRanges), not NumberOfMemoryRanges |
| MemoryListStream.MemoryList.ToBytes | minidump/streams/MemoryListStream.py:20-24 | the loop produces the count followed by every descriptor's bytes in list order |
| MemoryListStream.DescriptorsBytesLayout | minidump/streams/MemoryListStream.py:22-23 | with 32-bit locations, n descriptors take 12 * n bytes and descriptor i sits at 12 * i |
| MemoryListStream.MemoryListLayout | minidump/streams/MemoryListStream.py:20-24 | the list takes 4 + 12 * n bytes, and descriptor i's bytes sit at 4 + 12 * i |
| MemoryListStream.DescriptorConsumes | minidump/streams/MemoryListStream.py:56-71 | the descriptor decoder always consumes 16 bytes, or the rest of the data |
| MemoryListStream.ParseMemoryList | minidump/streams/MemoryListStream.py:26-33 | the count is the first 4 bytes; exactly that many descriptors are decoded; 4 + 16 * count bytes are consumed, or the rest of the data |
| MemoryListStream.DescriptorsAt | minidump/streams/MemoryListStream.py:31-32 | descriptor i of n decoded back to back is the one at 16 * i |
| MemoryListStream.ParseMemoryListAt | minidump/streams/MemoryListStream.py:26-33 | when the list's bytes are all present, descriptor i is the one decoded at offset 4 + 16 * i |
| MemoryListStream.ParseMini | minidump/common_structs.py:107-117 | `parse_mini` gives a valid segment with the descriptor's DataSize, StartOfMemoryRange and Rva |
| MemoryListStream.SegmentsOf | minidump/streams/MemoryListStream.py:90-93 | one segment per descriptor, in order: segment i is `parse_mini` of descriptor i |
| MemoryListStream.MemoryListSegments | minidump/streams/MemoryListStream.py:86-93 | one valid segment per descriptor; their number is the count in the first 4 bytes |
| MemoryListStream.MemoryListSegmentFields | minidump/streams/MemoryListStream.py:86-93 | segment i's size, file offset and start address are descriptor i's bytes 0-3, 4-7 and 8-15 |
| MemoryListStream.SegmentsReorder | minidump/streams/MemoryListStream.py:90-93 | each segment depends only on its own descriptor: rearranging the descriptors rearranges the segments the same way |
| Memory64ListStream.MemoryDescriptor64.GetSize | minidump/streams/Memory64ListStream.py:60-62 | the constant 16 (two 8-byte fields), which ToBytes' length and the list's `get_size` refer to |
| Memory64ListStream.MemoryDescriptor64.ToBytes | minidump/streams/Memory64ListStream.py:64-68 | the encoding has `get_size()` = 16 bytes |
| Memory64ListStream.ParseMemoryDescriptor64 | minidump/streams/Memory64ListStream.py:70-77 | parse reads StartOfMemoryRange from bytes 0-7 and DataSize from 8-15, consuming 16 bytes |
| Memory64ListStream.Descriptor64RoundTrip | minidump/streams/Memory64ListStream.py:60-77 | parse of the stored `to_bytes` gives the descriptor back and consumes `get_size()` bytes |
| Memory64ListStream.Memory64List.GetSize | minidump/streams/Memory64ListStream.py:18-21 | `get_size` is a 16-byte header plus 16 bytes per range, 16 * (n + 1) |
| Memory64ListStream.Memory64List.ToBytes | minidump/streams/Memory64ListStream.py:18-28 | the encoding has `get_size()` = 16 + 16 * len(MemoryRanges) bytes |
| Memory64ListStream.Descriptor64Consumes | minidump/streams/Memory64ListStream.py:70-77 | the descriptor decoder always consumes 16 bytes, or the rest of the data |
| Memory64ListStream.ParseMemory64List | minidump/streams/Memory64ListStream.py:30-43 | parse reads the count from bytes 0-7 and BaseRva from 8-15, decodes exactly count descriptors, and consumes `get_size()` bytes, or the rest of the data |
| Memory64ListStream.Descriptors64RoundTrip | minidump/streams/Memory64ListStream.py:39-42 | decoding the concatenated encodings of n descriptors gives them back and consumes 16 * n bytes |
| Memory64ListStream.Memory64ListRoundTrip | minidump/streams/Memory64ListStream.py:23-43 | parse of `to_bytes` gives the list back, consuming all of it, when NumberOfMemoryRanges == len(MemoryRanges) |
| Memory64ListStream.ParseFull | minidump/common_structs.py:119-125 | `parse_full` gives a valid segment with the descriptor's size and start, at the file offset it is given |
| Memory64ListStream.SizeSumPrefix | minidump/streams/Memory64ListStream.py:104 | the sizes before range i + 1 are those before range i plus range i's |
| Memory64ListStream.Full64Segments | minidump/streams/Memory64ListStream.py:100-104 | one valid segment per range, in order; segment i has range i's size and start, at file offset BaseRva + the sizes of ranges 0 to i - 1 |
| Memory64ListStream.FromChunkData | minidump/streams/Memory64ListStream.py:97-105 | the running-offset loop over the decoded list produces exactly those segments |
| Memory64ListStream.Full64SegmentsStep | minidump/streams/Memory64ListStream.py:102-104 | one round appends the next segment at the running offset, and the offset moves past that range's bytes |
| Memory64ListStream.Full64SegmentsContiguous | minidump/streams/Memory64ListStream.py:100-104 | the first segment starts at BaseRva; each following one starts where the previous one ends |
| Memory64ListStream.Full64SegmentsExample | minidump/streams/Memory64ListStream.py:100-104 | sizes [s0, s1, s2] with base B give file offsets [B, B + s0, B + s0 + s1] |

## Left out

- The `async` twins (`aparse`, `aread`, `asearch`, `aget_from_rva`) are not modelled. Their logic is the sync logic with awaited I/O.
- The streams' `parse` methods first seek to the directory entry's location and read its `DataSize` bytes. The model starts from those bytes (`chunk`), because the directory record is not part of this model.
- `MINIDUMP_STRING` is not part of this model. It is peripheral to the address space and decodes through the UTF-16-LE codec.
- Display code is not modelled: `hexdump`, `construct_table`, `__str__`, `__repr__`, `get_header`, `to_row`, `to_table`.
- minidump/constants.py is not part of this model. It only holds enumeration tables.
- Looking up the segment that owns an address across a whole address space is not part of this model. The files modelled only provide `inrange`, which is proved.
- `ParseLocation64` is never reached from the memory list decoder, as in the code. The 64-bit branch of the descriptor decoder is commented out there.
- The loop counter `i` of the first-match search is not modelled. It is only read by commented-out debug output.
- `file_handler` is modelled as an in-memory file whose contents do not change. Real I/O errors are not modelled.
- CommonStructs.Segment.Search: in the find-first branch of a non-empty segment, requires a positive chunk size or an empty pattern, and a file that holds all of the segment's bytes or whose bytes from the segment's offset on contain the pattern. These are exactly the inputs on which the source's loop ends. On every other input a chunk of 0 bytes, or an empty read at the end of the file, never grows `data` and no match is ever found.
- CommonStructs.Segment.Search: `chunksize` is a natural number. For a negative one, the source passes it to `read`, which reads to the end of the file in one call, so the search can report an address past the segment's end; that case is not modelled.
- CommonStructs.Segment.FirstMatch: requires the same as the find-first branch of Search, for the same reason, and takes a natural-number chunk size.
- CommonStructs.LocationDescriptor.ToBytes: requires that the fields fit their width. For a field that does not fit, `int.to_bytes` raises OverflowError; that error path is not modelled.
- MemoryListStream.MemoryDescriptor.ToBytes: requires that its fields fit, for the same reason.
- MemoryListStream.MemoryList.ToBytes: requires that the count and every descriptor fit, for the same reason.
- Memory64ListStream.MemoryDescriptor64.ToBytes: requires that both fields fit 8 bytes, for the same reason.
- Memory64ListStream.Memory64List.ToBytes: requires that the count, BaseRva and every descriptor fit 8 bytes, for the same reason.
- MemoryListStream.DescriptorsBytesLayout: covers only descriptors with 32-bit locations, which are the only ones the decoder produces.
- MemoryListStream.MemoryListLayout: covers only descriptors with 32-bit locations, for the same reason.
