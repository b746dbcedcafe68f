/**
  The MINIDUMP_MEMORY64_LIST stream (stream type 9): an 8-byte count, the
  8-byte file offset of the first range's bytes (BaseRva), then the ranges.
  The ranges' bytes lie back to back in the file from BaseRva on, so each
  range's file offset is implicit: BaseRva plus the sizes of the ranges
  before it.
 */
module Memory64ListStream {
  import opened Bytes
  import opened CommonStructs

  /** MINIDUMP_MEMORY_DESCRIPTOR64. */
  datatype MemoryDescriptor64 = MemoryDescriptor64(StartOfMemoryRange: nat, DataSize: nat)
  {
    /** `get_size`: the encoded length, two 8-byte fields. */
    static function GetSize(): nat {
      16
    }

    /** Both fields fit 8 bytes, so `to_bytes` does not raise. */
    predicate Fits() {
      StartOfMemoryRange < Pow256(8) && DataSize < Pow256(8)
    }

    /** `to_bytes`: StartOfMemoryRange first, then DataSize. */
    function ToBytes(): (b: seq<byte>)
      requires Fits()
      ensures |b| == GetSize()
    {
      EncodeLE(StartOfMemoryRange, 8) + EncodeLE(DataSize, 8)
    }
  }

  /** MINIDUMP_MEMORY_DESCRIPTOR64.parse: two 8-byte fields. */
  function ParseMemoryDescriptor64(r: Reader): (res: (MemoryDescriptor64, Reader))
    ensures res.1.data == r.data
    ensures r.pos + 16 <= |r.data| ==>
      && res.1.pos == r.pos + 16
      && res.0.StartOfMemoryRange == DecodeLE(r.data[r.pos..r.pos + 8])
      && res.0.DataSize == DecodeLE(r.data[r.pos + 8..r.pos + 16])
    ensures r.pos <= |r.data| ==> res.1.pos == Min(r.pos + 16, |r.data|)
  {
    var (start, r1) := ReadField(r, 8);
    var (size, r2) := ReadField(r1, 8);
    (MemoryDescriptor64(start, size), r2)
  }

  /** Decoding a descriptor where its encoding is stored gives it back and
      consumes exactly `get_size()` bytes. */
  lemma {:induction false} Descriptor64RoundTrip(d: MemoryDescriptor64, data: seq<byte>, p: nat)
    requires d.Fits()
    requires p + 16 <= |data| && data[p..p + 16] == d.ToBytes()
    ensures ParseMemoryDescriptor64(Reader(data, p)) == (d, Reader(data, p + MemoryDescriptor64.GetSize()))
  {
    var b := d.ToBytes();
    DecodeEncode(d.StartOfMemoryRange, 8);
    DecodeEncode(d.DataSize, 8);
    assert b[..8] == EncodeLE(d.StartOfMemoryRange, 8);
    assert b[8..] == EncodeLE(d.DataSize, 8);
    SliceOfSlice(data, p, p + 16, 0, 8);
    SliceOfSlice(data, p, p + 16, 8, 16);
  }

  predicate AllFit(ds: seq<MemoryDescriptor64>) {
    forall i :: 0 <= i < |ds| ==> ds[i].Fits()
  }

  /** The descriptors' encodings, concatenated in order. */
  function DescriptorsBytes(ds: seq<MemoryDescriptor64>): (b: seq<byte>)
    requires AllFit(ds)
    ensures |b| == 16 * |ds|
  {
    if |ds| == 0 then [] else ds[0].ToBytes() + DescriptorsBytes(ds[1..])
  }

  /** MINIDUMP_MEMORY64_LIST. */
  datatype Memory64List = Memory64List(
    NumberOfMemoryRanges: nat,
    BaseRva: nat,
    MemoryRanges: seq<MemoryDescriptor64>)
  {
    /** `get_size`: two 8-byte header fields and 16 bytes per range. */
    function GetSize(): (n: nat)
      ensures n == 16 * (|MemoryRanges| + 1)
    {
      8 + 8 + |MemoryRanges| * MemoryDescriptor64.GetSize()
    }

    /** `to_bytes` does not raise: the count (the list's length), BaseRva
        and every descriptor fit their 8-byte fields. */
    predicate Fits() {
      |MemoryRanges| < Pow256(8) && BaseRva < Pow256(8) && AllFit(MemoryRanges)
    }

    /** `to_bytes`: the count taken from the list's length, BaseRva, then
        each descriptor in order. */
    function ToBytes(): (b: seq<byte>)
      requires Fits()
      ensures |b| == GetSize()
    {
      EncodeLE(|MemoryRanges|, 8) + EncodeLE(BaseRva, 8) + DescriptorsBytes(MemoryRanges)
    }
  }

  /** The descriptor decoder reads 16 bytes, or what is left. */
  lemma Descriptor64Consumes()
    ensures Consumes(ParseMemoryDescriptor64, 16)
  {
    forall r: Reader
      ensures ParseMemoryDescriptor64(r).1.data == r.data
      ensures r.pos <= |r.data| ==> ParseMemoryDescriptor64(r).1.pos == Min(r.pos + 16, |r.data|)
    {
    }
  }

  /** MINIDUMP_MEMORY64_LIST.parse: the 8-byte count, the 8-byte BaseRva,
      then exactly count descriptors. */
  function ParseMemory64List(r: Reader): (res: (Memory64List, Reader))
    ensures res.1.data == r.data
    ensures |res.0.MemoryRanges| == res.0.NumberOfMemoryRanges
    ensures r.pos + 16 <= |r.data| ==>
      && res.0.NumberOfMemoryRanges == DecodeLE(r.data[r.pos..r.pos + 8])
      && res.0.BaseRva == DecodeLE(r.data[r.pos + 8..r.pos + 16])
    ensures r.pos <= |r.data| ==>
      res.1.pos == Min(r.pos + res.0.GetSize(), |r.data|)
  {
    var (count, r1) := ReadField(r, 8);
    var (base, r2) := ReadField(r1, 8);
    Descriptor64Consumes();
    ParseRecordsConsumes(ParseMemoryDescriptor64, r2, count);
    var (ranges, r3) := ParseRecords(ParseMemoryDescriptor64, r2, count);
    (Memory64List(count, base, ranges), r3)
  }

  /** Where n descriptors are stored, the first 16 bytes are the first
      one's encoding and the rest encode the others. */
  lemma DescriptorsStoredAt(ds: seq<MemoryDescriptor64>, data: seq<byte>, p: nat)
    requires |ds| > 0 && AllFit(ds)
    requires p + 16 * |ds| <= |data| && data[p..p + 16 * |ds|] == DescriptorsBytes(ds)
    ensures data[p..p + 16] == ds[0].ToBytes()
    ensures data[p + 16..p + 16 * |ds|] == DescriptorsBytes(ds[1..])
  {
    var head := ds[0].ToBytes();
    var tail := DescriptorsBytes(ds[1..]);
    DescriptorsBytesCons(ds);
    StoredConcat(data, p, head, tail);
  }

  lemma DescriptorsBytesCons(ds: seq<MemoryDescriptor64>)
    requires |ds| > 0 && AllFit(ds)
    ensures DescriptorsBytes(ds) == ds[0].ToBytes() + DescriptorsBytes(ds[1..])
    ensures |ds[0].ToBytes()| == 16 && |DescriptorsBytes(ds[1..])| == 16 * |ds| - 16
  {
  }

  lemma {:induction false} Descriptors64RoundTrip(ds: seq<MemoryDescriptor64>, data: seq<byte>, p: nat)
    requires AllFit(ds)
    requires p + 16 * |ds| <= |data| && data[p..p + 16 * |ds|] == DescriptorsBytes(ds)
    ensures ParseRecords(ParseMemoryDescriptor64, Reader(data, p), |ds|) == (ds, Reader(data, p + 16 * |ds|))
    decreases |ds|
  {
    if |ds| > 0 {
      DescriptorsStoredAt(ds, data, p);
      Descriptor64RoundTrip(ds[0], data, p);
      assert p + 16 + 16 * |ds[1..]| == p + 16 * |ds|;
      Descriptors64RoundTrip(ds[1..], data, p + 16);
      var rest := ParseRecords(ParseMemoryDescriptor64, Reader(data, p + 16), |ds| - 1);
      assert ParseRecords(ParseMemoryDescriptor64, Reader(data, p), |ds|) == ([ds[0]] + rest.0, rest.1);
      assert [ds[0]] + ds[1..] == ds;
    }
  }

  /** Decoding the encoding of a list whose count agrees with its ranges
      gives the list back, consuming all of it. */
  lemma Memory64ListRoundTrip(l: Memory64List)
    requires l.Fits() && l.NumberOfMemoryRanges == |l.MemoryRanges|
    ensures ParseMemory64List(Reader(l.ToBytes(), 0)) == (l, Reader(l.ToBytes(), l.GetSize()))
  {
    var b := l.ToBytes();
    var count := EncodeLE(|l.MemoryRanges|, 8);
    var base := EncodeLE(l.BaseRva, 8);
    DecodeEncode(|l.MemoryRanges|, 8);
    DecodeEncode(l.BaseRva, 8);
    assert b[0..16] == count + base;
    assert b[0..8] == count && b[8..16] == base;
    assert b[16..16 + 16 * |l.MemoryRanges|] == DescriptorsBytes(l.MemoryRanges);
    Descriptors64RoundTrip(l.MemoryRanges, b, 16);
  }

  // ---------------------------------------------------------------------
  // The segment list
  // ---------------------------------------------------------------------

  /** MinidumpMemorySegment.parse_full: the descriptor's range, stored at
      the file offset the caller has worked out. */
  function ParseFull(d: MemoryDescriptor64, rva: nat): (s: Segment)
    ensures s.Valid()
    ensures s.size == d.DataSize
    ensures s.startVirtualAddress == d.StartOfMemoryRange
    ensures s.startFileAddress == rva
  {
    NewSegment(d.DataSize, rva, d.StartOfMemoryRange)
  }

  /** The total size of the ranges. */
  function SizeSum(ds: seq<MemoryDescriptor64>): nat {
    if |ds| == 0 then 0 else ds[0].DataSize + SizeSum(ds[1..])
  }

  /** Adding a range to the end adds its size. */
  lemma {:induction false} SizeSumAppend(ds: seq<MemoryDescriptor64>, d: MemoryDescriptor64)
    ensures SizeSum(ds + [d]) == SizeSum(ds) + d.DataSize
  {
    if ds != [] {
      assert (ds + [d])[1..] == ds[1..] + [d];
      SizeSumAppend(ds[1..], d);
    }
  }

  /** The sizes of the ranges before i + 1 are those before i plus range
      i's own. */
  lemma SizeSumPrefix(ds: seq<MemoryDescriptor64>, i: nat)
    requires i < |ds|
    ensures SizeSum(ds[..i + 1]) == SizeSum(ds[..i]) + ds[i].DataSize
  {
    assert ds[..i + 1] == ds[..i] + [ds[i]];
    SizeSumAppend(ds[..i], ds[i]);
  }

  /** The segments of a 64-bit list: one valid segment per range, in
      range order, with the range's size and start address, stored at
      BaseRva plus the sizes of ranges 0 to i - 1. */
  function Full64Segments(l: Memory64List): (segs: seq<Segment>)
    ensures |segs| == |l.MemoryRanges|
    ensures forall i :: 0 <= i < |segs| ==>
      && segs[i].Valid()
      && segs[i].size == l.MemoryRanges[i].DataSize
      && segs[i].startVirtualAddress == l.MemoryRanges[i].StartOfMemoryRange
      && segs[i].startFileAddress == l.BaseRva + SizeSum(l.MemoryRanges[..i])
  {
    var ranges := l.MemoryRanges;
    seq(|ranges|, i requires 0 <= i < |ranges| => ParseFull(ranges[i], l.BaseRva + SizeSum(ranges[..i])))
  }

  /** MinidumpMemory64List.from_chunk_data: decode the list, then walk the
      ranges in order with a running file offset that starts at BaseRva
      and grows by each range's size. */
  method FromChunkData(chunk: seq<byte>) returns (segs: seq<Segment>)
    ensures segs == Full64Segments(ParseMemory64List(Reader(chunk, 0)).0)
  {
    var mtl := ParseMemory64List(Reader(chunk, 0)).0;
    ghost var all := Full64Segments(mtl);
    var rva := mtl.BaseRva;
    segs := [];
    for i := 0 to |mtl.MemoryRanges|
      invariant rva == mtl.BaseRva + SizeSum(mtl.MemoryRanges[..i])
      invariant segs == all[..i]
    {
      var mod := mtl.MemoryRanges[i];
      Full64SegmentsStep(mtl, i, rva);
      segs := segs + [ParseFull(mod, rva)];
      rva := rva + mod.DataSize;
    }
    assert all[..|all|] == all;
  }

  /** One step of the walk: the segment built at the running offset is the
      next one, and the offset moves past it. */
  lemma Full64SegmentsStep(l: Memory64List, i: nat, rva: nat)
    requires i < |l.MemoryRanges| && rva == l.BaseRva + SizeSum(l.MemoryRanges[..i])
    ensures Full64Segments(l)[..i + 1] == Full64Segments(l)[..i] + [ParseFull(l.MemoryRanges[i], rva)]
    ensures rva + l.MemoryRanges[i].DataSize == l.BaseRva + SizeSum(l.MemoryRanges[..i + 1])
  {
    var all := Full64Segments(l);
    SizeSumPrefix(l.MemoryRanges, i);
    assert ParseFull(l.MemoryRanges[i], rva) == all[i];
    assert all[..i + 1] == all[..i] + [all[i]];
  }

  /** The segments' bytes lie back to back in the file: each one starts
      where the previous one ends, and the first at BaseRva. */
  lemma Full64SegmentsContiguous(l: Memory64List, i: nat)
    requires i + 1 < |l.MemoryRanges|
    ensures Full64Segments(l)[0].startFileAddress == l.BaseRva
    ensures Full64Segments(l)[i + 1].startFileAddress
         == Full64Segments(l)[i].startFileAddress + Full64Segments(l)[i].size
  {
    SizeSumPrefix(l.MemoryRanges, i);
  }

  /** Sizes [s0, s1, s2] with base B give file offsets [B, B + s0, B + s0 + s1]. */
  lemma Full64SegmentsExample(b: nat, v0: nat, s0: nat, v1: nat, s1: nat, v2: nat, s2: nat)
    ensures var segs := Full64Segments(Memory64List(3, b,
        [MemoryDescriptor64(v0, s0), MemoryDescriptor64(v1, s1), MemoryDescriptor64(v2, s2)]));
      && |segs| == 3
      && segs[0].startFileAddress == b
      && segs[1].startFileAddress == b + s0
      && segs[2].startFileAddress == b + s0 + s1
  {
    var ds := [MemoryDescriptor64(v0, s0), MemoryDescriptor64(v1, s1), MemoryDescriptor64(v2, s2)];
    SizeSumPrefix(ds, 0);
    SizeSumPrefix(ds, 1);
  }
}
