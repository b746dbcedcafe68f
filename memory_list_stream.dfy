/**
  The MINIDUMP_MEMORY_LIST stream (stream type 5): a 4-byte count followed
  by that many memory descriptors, each carrying its own file offset, and
  the segment list built from it.
 */
module MemoryListStream {
  import opened Bytes
  import opened CommonStructs

  /** MINIDUMP_MEMORY_DESCRIPTOR. The location's two fields are also kept
      as DataSize and Rva, as the source keeps them; the decoder sets them
      from the location, and segments are built from these copies. */
  datatype MemoryDescriptor = MemoryDescriptor(
    StartOfMemoryRange: nat,
    MemoryLocation: LocationDescriptor,
    DataSize: nat,
    Rva: nat)
  {
    /** `to_bytes` does not raise: the start fits its 4 bytes and the
        location fits its own width. */
    predicate Fits() {
      StartOfMemoryRange < Pow256(4) && MemoryLocation.Fits()
    }

    /** `to_bytes`: a 4-byte StartOfMemoryRange, then the location's own
        encoding (8 bytes for the 32-bit form, 16 for the 64-bit one). */
    function ToBytes(): (b: seq<byte>)
      requires Fits()
      ensures |b| == 4 + MemoryLocation.GetSize()
    {
      EncodeLE(StartOfMemoryRange, 4) + MemoryLocation.ToBytes()
    }
  }

  /** The start comes first, in 4 bytes, then the location. */
  lemma DescriptorBytesFields(d: MemoryDescriptor)
    requires d.Fits()
    ensures DecodeLE(d.ToBytes()[..4]) == d.StartOfMemoryRange
    ensures d.ToBytes()[4..] == d.MemoryLocation.ToBytes()
  {
    DecodeEncode(d.StartOfMemoryRange, 4);
    assert d.ToBytes()[..4] == EncodeLE(d.StartOfMemoryRange, 4);
  }

  /** MINIDUMP_MEMORY_DESCRIPTOR.parse: the 8-byte 32-bit location first,
      then an 8-byte StartOfMemoryRange, 16 bytes in all. */
  function ParseMemoryDescriptor(r: Reader): (res: (MemoryDescriptor, Reader))
    ensures res.1.data == r.data
    ensures res.0.MemoryLocation.Location32?
    ensures res.0.DataSize == res.0.MemoryLocation.DataSize
    ensures res.0.Rva == res.0.MemoryLocation.Rva
    ensures r.pos + 16 <= |r.data| ==>
      && res.1.pos == r.pos + 16
      && res.0.DataSize == DecodeLE(r.data[r.pos..r.pos + 4])
      && res.0.Rva == DecodeLE(r.data[r.pos + 4..r.pos + 8])
      && res.0.StartOfMemoryRange == DecodeLE(r.data[r.pos + 8..r.pos + 16])
    ensures r.pos <= |r.data| ==> res.1.pos == Min(r.pos + 16, |r.data|)
  {
    var (location, r1) := ParseLocation32(r);
    var (start, r2) := ReadField(r1, 8);
    (MemoryDescriptor(start, location, location.DataSize, location.Rva), r2)
  }

  /** `to_bytes` and `parse` do not agree on the layout: decoding the
      12 bytes of a descriptor with a 32-bit location reads its start as
      DataSize, its DataSize as Rva and its Rva as the start, so the two
      are inverses only when all three fields are equal. */
  lemma {:induction false} DescriptorBytesRotated(d: MemoryDescriptor)
    requires d.Fits() && d.MemoryLocation.Location32?
    ensures var (e, r) := ParseMemoryDescriptor(Reader(d.ToBytes(), 0));
      && e.DataSize == d.StartOfMemoryRange
      && e.Rva == d.MemoryLocation.DataSize
      && e.StartOfMemoryRange == d.MemoryLocation.Rva
      && r.pos == 12
  {
    var b := d.ToBytes();
    var loc := d.MemoryLocation.ToBytes();
    DescriptorBytesFields(d);
    assert b[..4] == b[0..4];
    assert b[4..8] == loc[..4];
    assert b[8..12] == loc[4..];
    var (location, r1) := ParseLocation32(Reader(b, 0));
    assert r1 == Reader(b, 8);
    assert ReadField(r1, 8) == (DecodeLE(b[8..12]), Reader(b, 12));
  }

  /** MINIDUMP_MEMORY_LIST: the decoded count and the descriptors. */
  datatype MemoryList = MemoryList(NumberOfMemoryRanges: nat, MemoryRanges: seq<MemoryDescriptor>)
  {
    /** `to_bytes` does not raise: the list length fits the 4-byte count
        and every descriptor fits. */
    predicate Fits() {
      |MemoryRanges| < Pow256(4) && AllFit(MemoryRanges)
    }

    /** What `to_bytes` produces: the count taken from the list's length
        (not from NumberOfMemoryRanges), then each descriptor in order. */
    function Serialized(): (b: seq<byte>)
      requires Fits()
      ensures |b| >= 4 && DecodeLE(b[..4]) == |MemoryRanges|
    {
      DecodeEncode(|MemoryRanges|, 4);
      var b := EncodeLE(|MemoryRanges|, 4) + DescriptorsBytes(MemoryRanges, |MemoryRanges|);
      assert b[..4] == EncodeLE(|MemoryRanges|, 4);
      b
    }

    /** `to_bytes`, appending one descriptor's bytes at a time. */
    method ToBytes() returns (t: seq<byte>)
      requires Fits()
      ensures t == Serialized()
    {
      var header := EncodeLE(|MemoryRanges|, 4);
      t := header;
      for i := 0 to |MemoryRanges|
        invariant t == header + DescriptorsBytes(MemoryRanges, i)
      {
        t := t + MemoryRanges[i].ToBytes();
      }
    }
  }

  predicate AllFit(ds: seq<MemoryDescriptor>) {
    forall i :: 0 <= i < |ds| ==> ds[i].Fits()
  }

  /** The encodings of the first n descriptors, concatenated in order. */
  function DescriptorsBytes(ds: seq<MemoryDescriptor>, n: nat): seq<byte>
    requires n <= |ds| && AllFit(ds)
  {
    if n == 0 then []
    else DescriptorsBytes(ds, n - 1) + ds[n - 1].ToBytes()
  }

  /** With 32-bit locations every descriptor takes 12 bytes, so the list
      takes 4 + 12 * n bytes and descriptor i sits at 4 + 12 * i. */
  lemma {:induction false} DescriptorsBytesLayout(ds: seq<MemoryDescriptor>, n: nat)
    requires n <= |ds| && AllFit(ds)
    requires forall i :: 0 <= i < |ds| ==> ds[i].MemoryLocation.Location32?
    ensures |DescriptorsBytes(ds, n)| == 12 * n
    ensures forall i :: 0 <= i < n ==> DescriptorsBytes(ds, n)[12 * i..12 * i + 12] == ds[i].ToBytes()
  {
    if n > 0 {
      DescriptorsBytesLayout(ds, n - 1);
      var prev := DescriptorsBytes(ds, n - 1);
      var last := ds[n - 1].ToBytes();
      assert DescriptorsBytes(ds, n) == prev + last;
      forall i | 0 <= i < n
        ensures (prev + last)[12 * i..12 * i + 12] == ds[i].ToBytes()
      {
        if i < n - 1 {
          SliceOfConcat(prev, last, 12 * i, 12 * i + 12);
        } else {
          assert 12 * i == |prev|;
        }
      }
    }
  }

  lemma MemoryListLayout(l: MemoryList)
    requires l.Fits()
    requires forall i :: 0 <= i < |l.MemoryRanges| ==> l.MemoryRanges[i].MemoryLocation.Location32?
    ensures |l.Serialized()| == 4 + 12 * |l.MemoryRanges|
    ensures forall i :: 0 <= i < |l.MemoryRanges| ==>
      l.Serialized()[4 + 12 * i..16 + 12 * i] == l.MemoryRanges[i].ToBytes()
  {
    var ds := l.MemoryRanges;
    DescriptorsBytesLayout(ds, |ds|);
    var b := l.Serialized();
    assert b == EncodeLE(|ds|, 4) + DescriptorsBytes(ds, |ds|);
    forall i | 0 <= i < |ds|
      ensures b[4 + 12 * i..16 + 12 * i] == ds[i].ToBytes()
    {
      assert b[4 + 12 * i..16 + 12 * i] == DescriptorsBytes(ds, |ds|)[12 * i..12 * i + 12];
    }
  }

  /** The descriptor decoder reads 16 bytes, or what is left. */
  lemma DescriptorConsumes()
    ensures Consumes(ParseMemoryDescriptor, 16)
  {
    forall r: Reader
      ensures ParseMemoryDescriptor(r).1.data == r.data
      ensures r.pos <= |r.data| ==> ParseMemoryDescriptor(r).1.pos == Min(r.pos + 16, |r.data|)
    {
    }
  }

  /** MINIDUMP_MEMORY_LIST.parse: a 4-byte count, then exactly that many
      descriptors, 4 + 16 * count bytes in all when the input holds them. */
  function ParseMemoryList(r: Reader): (res: (MemoryList, Reader))
    ensures res.1.data == r.data
    ensures |res.0.MemoryRanges| == res.0.NumberOfMemoryRanges
    ensures r.pos + 4 <= |r.data| ==> res.0.NumberOfMemoryRanges == DecodeLE(r.data[r.pos..r.pos + 4])
    ensures r.pos <= |r.data| ==>
      res.1.pos == Min(r.pos + 4 + 16 * res.0.NumberOfMemoryRanges, |r.data|)
  {
    var (count, r1) := ReadField(r, 4);
    DescriptorConsumes();
    ParseRecordsConsumes(ParseMemoryDescriptor, r1, count);
    var (ranges, r2) := ParseRecords(ParseMemoryDescriptor, r1, count);
    (MemoryList(count, ranges), r2)
  }

  /** Descriptor i of n decoded back to back from p is the one at
      p + 16 * i. */
  lemma DescriptorsAt(data: seq<byte>, p: nat, n: nat, i: nat)
    requires p + 16 * n <= |data| && i < n
    ensures ParseRecords(ParseMemoryDescriptor, Reader(data, p), n).0[i] == ParseMemoryDescriptor(Reader(data, p + 16 * i)).0
  {
    DescriptorConsumes();
    ParseRecordsAt(ParseMemoryDescriptor, data, p, n, i);
  }

  /** Descriptor i of a memory list whose bytes are all present is the one
      decoded at offset 4 + 16 * i. */
  lemma ParseMemoryListAt(r: Reader, i: nat)
    requires r.pos + 4 + 16 * ParseMemoryList(r).0.NumberOfMemoryRanges <= |r.data|
    requires i < ParseMemoryList(r).0.NumberOfMemoryRanges
    ensures ParseMemoryList(r).0.MemoryRanges[i] == ParseMemoryDescriptor(Reader(r.data, r.pos + 4 + 16 * i)).0
  {
    var count := ParseMemoryList(r).0.NumberOfMemoryRanges;
    assert ParseMemoryList(r).0.MemoryRanges == ParseRecords(ParseMemoryDescriptor, Reader(r.data, r.pos + 4), count).0 by {
      assert ReadField(r, 4) == (count, Reader(r.data, r.pos + 4));
    }
    DescriptorsAt(r.data, r.pos + 4, count, i);
  }

  /** MinidumpMemorySegment.parse_mini: the segment is the descriptor's
      range, stored at the descriptor's own file offset. */
  function ParseMini(d: MemoryDescriptor): (s: Segment)
    ensures s.Valid()
    ensures s.size == d.DataSize
    ensures s.startVirtualAddress == d.StartOfMemoryRange
    ensures s.startFileAddress == d.Rva
  {
    NewSegment(d.DataSize, d.Rva, d.StartOfMemoryRange)
  }

  /** One segment per descriptor, in order. */
  function SegmentsOf(ranges: seq<MemoryDescriptor>): (segs: seq<Segment>)
    ensures |segs| == |ranges|
    ensures forall i :: 0 <= i < |segs| ==> segs[i] == ParseMini(ranges[i])
  {
    seq(|ranges|, i requires 0 <= i < |ranges| => ParseMini(ranges[i]))
  }

  /** MinidumpMemoryList.parse from the stream's bytes on: one valid
      segment per descriptor, in order, whose size, file offset and start
      address are the descriptor's bytes 0-3, 4-7 and 8-15. */
  function MemoryListSegments(chunk: seq<byte>): (segs: seq<Segment>)
    ensures 4 <= |chunk| ==> |segs| == DecodeLE(chunk[..4])
    ensures forall i :: 0 <= i < |segs| ==> segs[i].Valid()
  {
    var (mtl, _) := ParseMemoryList(Reader(chunk, 0));
    SegmentsOf(mtl.MemoryRanges)
  }

  /** Segment i of a memory list whose bytes are all present: its size,
      file offset and start address are descriptor i's bytes 0-3, 4-7 and
      8-15. */
  lemma MemoryListSegmentFields(chunk: seq<byte>, i: nat)
    requires 4 + 16 * |MemoryListSegments(chunk)| <= |chunk| && i < |MemoryListSegments(chunk)|
    ensures var seg := MemoryListSegments(chunk)[i];
      && seg.size == DecodeLE(chunk[4 + 16 * i..8 + 16 * i])
      && seg.startFileAddress == DecodeLE(chunk[8 + 16 * i..12 + 16 * i])
      && seg.startVirtualAddress == DecodeLE(chunk[12 + 16 * i..20 + 16 * i])
  {
    ParseMemoryListAt(Reader(chunk, 0), i);
  }

  /** No accumulation across entries: rearranging (or repeating, or
      dropping) descriptors rearranges the segments the same way. */
  lemma SegmentsReorder(ranges: seq<MemoryDescriptor>, order: seq<nat>)
    requires forall k :: 0 <= k < |order| ==> order[k] < |ranges|
    ensures SegmentsOf(seq(|order|, k requires 0 <= k < |order| => ranges[order[k]]))
         == seq(|order|, k requires 0 <= k < |order| => SegmentsOf(ranges)[order[k]])
  {
    var permuted := seq(|order|, k requires 0 <= k < |order| => ranges[order[k]]);
    var segs := SegmentsOf(ranges);
    forall k | 0 <= k < |order|
      ensures SegmentsOf(permuted)[k] == segs[order[k]]
    {
    }
  }
}
