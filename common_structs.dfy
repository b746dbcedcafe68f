/**
  The records shared by the minidump streams: the 32- and 64-bit location
  descriptors, the memory segment that maps one virtual-address range onto
  one region of the dump file, and the cursor-based file the segments read
  from.
 */
module CommonStructs {
  import opened Bytes

  // ---------------------------------------------------------------------
  // Location descriptors
  // ---------------------------------------------------------------------

  /** MINIDUMP_LOCATION_DESCRIPTOR (Location32: two 4-byte fields) and
      MINIDUMP_LOCATION_DESCRIPTOR64 (Location64: two 8-byte fields). */
  datatype LocationDescriptor =
    | Location32(DataSize: nat, Rva: nat)
    | Location64(DataSize: nat, Rva: nat)
  {
    /** Width in bytes of each of the two fields. */
    function FieldWidth(): nat {
      if Location32? then 4 else 8
    }

    /** `get_size`: the encoded length, one field width per field. */
    function GetSize(): (n: nat)
      ensures n == 2 * FieldWidth()
    {
      if Location32? then 8 else 16
    }

    /** Both fields fit their on-disk width, so `to_bytes` does not raise. */
    predicate Fits() {
      DataSize < Pow256(FieldWidth()) && Rva < Pow256(FieldWidth())
    }

    /** `to_bytes`: DataSize first, then Rva, each little-endian. */
    function ToBytes(): (b: seq<byte>)
      requires Fits()
      ensures |b| == GetSize()
      ensures DecodeLE(b[..FieldWidth()]) == DataSize
      ensures DecodeLE(b[FieldWidth()..]) == Rva
    {
      var w := FieldWidth();
      DecodeEncode(DataSize, w);
      DecodeEncode(Rva, w);
      var b := EncodeLE(DataSize, w) + EncodeLE(Rva, w);
      assert b[..w] == EncodeLE(DataSize, w);
      assert b[w..] == EncodeLE(Rva, w);
      b
    }
  }

  /** Reads one field of w bytes and the advanced reader. */
  function ReadField(r: Reader, w: nat): (res: (nat, Reader))
    ensures res.1.data == r.data
    ensures r.pos + w <= |r.data| ==> res.0 == DecodeLE(r.data[r.pos..r.pos + w]) && res.1.pos == r.pos + w
    ensures r.pos <= |r.data| ==> res.1.pos == Min(r.pos + w, |r.data|)
  {
    var (b, r') := r.Read(w);
    (DecodeLE(b), r')
  }

  /** MINIDUMP_LOCATION_DESCRIPTOR.parse: two 4-byte fields. */
  function ParseLocation32(r: Reader): (res: (LocationDescriptor, Reader))
    ensures res.0.Location32? && res.1.data == r.data
    ensures r.pos + 8 <= |r.data| ==>
      && res.1.pos == r.pos + 8
      && res.0.DataSize == DecodeLE(r.data[r.pos..r.pos + 4])
      && res.0.Rva == DecodeLE(r.data[r.pos + 4..r.pos + 8])
    ensures r.pos <= |r.data| ==> res.1.pos == Min(r.pos + 8, |r.data|)
  {
    var (size, r1) := ReadField(r, 4);
    var (rva, r2) := ReadField(r1, 4);
    (Location32(size, rva), r2)
  }

  /** MINIDUMP_LOCATION_DESCRIPTOR64.parse: two 8-byte fields. */
  function ParseLocation64(r: Reader): (res: (LocationDescriptor, Reader))
    ensures res.0.Location64? && res.1.data == r.data
    ensures r.pos + 16 <= |r.data| ==>
      && res.1.pos == r.pos + 16
      && res.0.DataSize == DecodeLE(r.data[r.pos..r.pos + 8])
      && res.0.Rva == DecodeLE(r.data[r.pos + 8..r.pos + 16])
    ensures r.pos <= |r.data| ==> res.1.pos == Min(r.pos + 16, |r.data|)
  {
    var (size, r1) := ReadField(r, 8);
    var (rva, r2) := ReadField(r1, 8);
    (Location64(size, rva), r2)
  }

  /** A field read with fewer than w bytes left is not an error: it decodes
      what is left (0 when nothing is) and stops at the end of the data, or
      stays where it is when already past it. */
  lemma ReadFieldShort(r: Reader, w: nat)
    requires |r.data| < r.pos + w
    ensures ReadField(r, w).0 == (if r.pos <= |r.data| then DecodeLE(r.data[r.pos..]) else 0)
    ensures ReadField(r, w).1 == Reader(r.data, if r.pos <= |r.data| then |r.data| else r.pos)
  {
    var b := Slice(r.data, r.pos, w);
    if r.pos <= |r.data| {
      assert b == r.data[r.pos..];
    } else {
      assert b == [];
    }
  }

  /** A location descriptor decoded with only 4 to 7 bytes left takes its
      DataSize from the first 4 and its Rva from the rest; one decoded at
      the end of the data is all zeros. */
  lemma {:induction false} Location32Truncated(r: Reader)
    requires r.pos <= |r.data| < r.pos + 8
    ensures r.pos + 4 <= |r.data| ==>
      ParseLocation32(r) == (Location32(DecodeLE(r.data[r.pos..r.pos + 4]), DecodeLE(r.data[r.pos + 4..])), Reader(r.data, |r.data|))
    ensures r.pos == |r.data| ==> ParseLocation32(r) == (Location32(0, 0), r)
  {
    ReadFieldShort(ReadField(r, 4).1, 4);
    if r.pos + 4 > |r.data| {
      ReadFieldShort(r, 4);
    }
  }

  // ---------------------------------------------------------------------
  // Arrays of fixed-size records
  // ---------------------------------------------------------------------

  /** parse never changes the data, and from a position inside the data it
      advances by w bytes, or to the end of the data if fewer remain. */
  ghost predicate Consumes<T>(parse: Reader -> (T, Reader), w: nat) {
    forall r: Reader :: parse(r).1.data == r.data && (r.pos <= |r.data| ==> parse(r).1.pos == Min(r.pos + w, |r.data|))
  }

  /** n records decoded one after another by parse (the list comprehensions
      of both memory-list decoders). */
  function ParseRecords<T>(parse: Reader -> (T, Reader), r: Reader, n: nat): (res: (seq<T>, Reader))
    ensures |res.0| == n
    decreases n
  {
    if n == 0 then ([], r)
    else
      var first := parse(r);
      var rest := ParseRecords(parse, first.1, n - 1);
      ([first.0] + rest.0, rest.1)
  }

  /** Decoding n records of 16 bytes (the size of a memory descriptor in
      either memory list) consumes 16 bytes each, or the rest of the data
      if fewer remain. */
  lemma {:induction false} ParseRecordsConsumes<T>(parse: Reader -> (T, Reader), r: Reader, n: nat)
    requires Consumes(parse, 16)
    ensures ParseRecords(parse, r, n).1.data == r.data
    ensures r.pos <= |r.data| ==> ParseRecords(parse, r, n).1.pos == Min(r.pos + 16 * n, |r.data|)
    decreases n
  {
    if n > 0 {
      var next := parse(r).1;
      ParseRecordsConsumes(parse, next, n - 1);
    }
  }

  /** When all n records are present, record i is the one decoded at
      offset 16 * i. */
  lemma {:induction false} ParseRecordsAt<T>(parse: Reader -> (T, Reader), data: seq<byte>, p: nat, n: nat, i: nat)
    requires Consumes(parse, 16)
    requires p + 16 * n <= |data| && i < n
    ensures ParseRecords(parse, Reader(data, p), n).0[i] == parse(Reader(data, p + 16 * i)).0
    decreases i
  {
    if i == 0 {
      assert p + 16 * i == p;
    } else {
      var next := parse(Reader(data, p)).1;
      assert next == Reader(data, p + 16);
      ParseRecordsAt(parse, data, p + 16, n - 1, i - 1);
      assert p + 16 + 16 * (i - 1) == p + 16 * i;
    }
  }

  /** Parsing the 32-bit form where its encoding is stored gives it back
      and consumes exactly `get_size()` bytes. */
  lemma {:induction false} Location32RoundTrip(d: LocationDescriptor, data: seq<byte>, p: nat)
    requires d.Location32? && d.Fits()
    requires p + 8 <= |data| && data[p..p + 8] == d.ToBytes()
    ensures ParseLocation32(Reader(data, p)) == (d, Reader(data, p + d.GetSize()))
  {
    SliceOfSlice(data, p, p + 8, 0, 4);
    SliceOfSlice(data, p, p + 8, 4, 8);
  }

  /** The same for the 64-bit form. */
  lemma {:induction false} Location64RoundTrip(d: LocationDescriptor, data: seq<byte>, p: nat)
    requires d.Location64? && d.Fits()
    requires p + 16 <= |data| && data[p..p + 16] == d.ToBytes()
    ensures ParseLocation64(Reader(data, p)) == (d, Reader(data, p + d.GetSize()))
  {
    SliceOfSlice(data, p, p + 16, 0, 8);
    SliceOfSlice(data, p, p + 16, 8, 16);
  }

  // ---------------------------------------------------------------------
  // The dump file
  // ---------------------------------------------------------------------

  /** The shared, cursor-based handle onto the dump file. Reads at or past
      the end return fewer bytes (possibly none) and advance the cursor by
      what they returned. */
  class FileHandle {
    const data: seq<byte>
    var pos: nat

    constructor (data: seq<byte>, pos: nat)
      ensures this.data == data && this.pos == pos
    {
      this.data := data;
      this.pos := pos;
    }

    method Tell() returns (p: nat)
      ensures p == pos
    {
      p := pos;
    }

    method Seek(p: nat)
      modifies this`pos
      ensures pos == p
    {
      pos := p;
    }

    /** `read(n)`; a negative n reads everything up to the end. */
    method Read(n: int) returns (b: seq<byte>)
      modifies this`pos
      ensures 0 <= n ==> b == Slice(data, old(pos), n)
      ensures n < 0 ==> b == data[Min(old(pos), |data|)..]
      ensures pos == old(pos) + |b|
    {
      if n < 0 {
        b := data[Min(pos, |data|)..];
      } else {
        b := Slice(data, pos, n);
      }
      pos := pos + |b|;
    }
  }

  // ---------------------------------------------------------------------
  // Memory segments
  // ---------------------------------------------------------------------

  datatype SegmentError =
    | WrongSegment      // the start address is outside the segment
    | CrossesBoundary   // the read would run past the segment's end

  datatype Outcome = Pass | Fail(error: SegmentError)

  datatype Result<T> = Ok(value: T) | Err(error: SegmentError)

  /** The default chunk size of a first-match search. */
  const DefaultChunkSize: nat := 50 * 1024

  /** MinidumpMemorySegment: `size` bytes of virtual memory starting at
      `startVirtualAddress`, stored in the dump file from
      `startFileAddress` on. `endVirtualAddress` is stored, as the source
      stores it, and is set by the constructor (NewSegment). */
  datatype Segment = Segment(
    size: nat,
    startFileAddress: nat,
    startVirtualAddress: nat,
    endVirtualAddress: nat)
  {
    /** The invariant the constructor establishes. */
    predicate Valid() {
      endVirtualAddress == startVirtualAddress + size
    }

    /** `inrange`: the half-open range [start, end); exactly the addresses
        at which a one-byte read validates. */
    predicate InRange(va: int)
      ensures InRange(va) <==> ValidateAddress(va, 1) == Pass
    {
      startVirtualAddress <= va < endVirtualAddress
    }

    /** `validate_address`: a read of n bytes at va stays inside the
        segment; `va == end` with n == 0 is accepted. */
    function ValidateAddress(va: int, n: int): (r: Outcome)
      ensures r == Pass <==> startVirtualAddress <= va <= endVirtualAddress && va + n <= endVirtualAddress
      ensures r == Fail(WrongSegment) <==> !(startVirtualAddress <= va <= endVirtualAddress)
      ensures r == Fail(CrossesBoundary) <==> startVirtualAddress <= va <= endVirtualAddress && va + n > endVirtualAddress
    {
      if !(startVirtualAddress <= va <= endVirtualAddress) then Fail(WrongSegment)
      else if va + n > endVirtualAddress then Fail(CrossesBoundary)
      else Pass
    }

    /** The segment's bytes as the file holds them (fewer than `size` when
        the file is cut short). */
    function Contents(file: seq<byte>): (c: seq<byte>)
      ensures |c| <= size
      ensures startFileAddress + size <= |file| ==> c == file[startFileAddress..startFileAddress + size]
      ensures |c| < size ==> c == file[Min(startFileAddress, |file|)..]
    {
      Slice(file, startFileAddress, size)
    }

    /** `read`: the n bytes at virtual address va, taken from the file at
        the corresponding offset; the file cursor is left where it was, and
        an invalid request fails before the cursor is touched. */
    method Read(va: int, n: int, f: FileHandle) returns (r: Result<seq<byte>>)
      modifies f
      ensures f.pos == old(f.pos)
      ensures ValidateAddress(va, n).Fail? ==> r == Err(ValidateAddress(va, n).error)
      ensures ValidateAddress(va, n).Pass? && 0 <= n ==>
        r == Ok(Slice(f.data, startFileAddress + (va - startVirtualAddress), n))
      ensures r.Ok? && 0 <= n && Valid() && startFileAddress + size <= |f.data| ==>
        r.value == Contents(f.data)[va - startVirtualAddress..va - startVirtualAddress + n]
      ensures ValidateAddress(va, n).Pass? && n < 0 ==>
        r == Ok(f.data[Min(startFileAddress + (va - startVirtualAddress), |f.data|)..])
    {
      var check := ValidateAddress(va, n);
      if check.Fail? {
        return Err(check.error);
      }
      var pos := f.Tell();
      var offset := va - startVirtualAddress;
      f.Seek(startFileAddress + offset);
      var data := f.Read(n);
      f.Seek(pos);
      r := Ok(data);
    }

    /** `search`: the virtual addresses at which pattern occurs among the
        segment's bytes. With findFirst, the leftmost one only (read in
        chunks, searching all bytes read so far); otherwise the positions
        ScanOffsets describes. The file cursor is restored on every exit,
        and a pattern longer than the segment returns before touching it. */
    method Search(pattern: seq<byte>, f: FileHandle, findFirst: bool := false, chunksize: nat := DefaultChunkSize) returns (fl: seq<nat>)
      requires findFirst && 0 < size && |pattern| <= size ==>
        && (0 < chunksize || |pattern| == 0)
        && (startFileAddress + size <= |f.data| || Find(Contents(f.data), pattern) != -1)
      modifies f
      ensures f.pos == old(f.pos)
      ensures findFirst ==>
        fl == (if 0 < size && Find(Contents(f.data), pattern) != -1
               then [startVirtualAddress + Find(Contents(f.data), pattern)] else [])
      ensures !findFirst ==> fl == Shifted(ScanOffsets(Contents(f.data), pattern), startVirtualAddress)
    {
      if |pattern| > size {
        NoOccurrence(Contents(f.data), pattern);
        NoneReported(Contents(f.data), pattern, 0);
        return [];
      }
      var pos := f.Tell();
      f.Seek(startFileAddress);
      if findFirst {
        fl := FirstMatch(pattern, f, chunksize);
        f.Seek(pos);
      } else {
        var data := f.Read(size);
        f.Seek(pos);
        fl := ScanAll(data, pattern, startVirtualAddress);
      }
    }

    /** The find_first branch of `search`, from the point where the cursor
        is at the segment's first byte: read chunks of at most chunksize
        bytes (the last one clamped to what is left) and search everything
        read so far after each, so a match across chunk boundaries is
        found. The cursor is left after the last byte read, inside the
        segment's bytes; `search` restores it. */
    method FirstMatch(pattern: seq<byte>, f: FileHandle, chunksize: nat) returns (fl: seq<nat>)
      requires f.pos == startFileAddress
      requires 0 < size ==> 0 < chunksize || |pattern| == 0
      requires 0 < size ==> startFileAddress + size <= |f.data| || Find(Contents(f.data), pattern) != -1
      modifies f
      ensures startFileAddress <= f.pos <= startFileAddress + size
      ensures fl == (if 0 < size && Find(Contents(f.data), pattern) != -1
                     then [startVirtualAddress + Find(Contents(f.data), pattern)] else [])
    {
      ghost var s := Contents(f.data);
      var chunk := Min(chunksize, size);
      var data: seq<byte> := [];
      while |data| < size
        invariant |data| <= |s| && data == s[..|data|]
        invariant f.pos == startFileAddress + |data|
        invariant 0 <= chunk && (|data| < size ==> 0 < chunk || |pattern| == 0)
        invariant |data| == 0 || Find(data, pattern) == -1
        decreases size - |data|
      {
        if chunk > size - |data| {
          chunk := size - |data|;
        }
        var got := ReadChunk(pattern, f, data, chunk);
        data := data + got;
        var marker := Find(data, pattern);
        if marker != -1 {
          return [startVirtualAddress + marker];
        }
      }
      if 0 < size {
        assert data == s;
        assert Find(s, pattern) == -1;
      }
      return [];
    }

    /** One chunk read of the find-first loop: `data` grows by what the read
        returns and stays a prefix of the segment's bytes; a match in it is
        the leftmost match of the whole segment, and without one it has
        grown by at least one byte. */
    method ReadChunk(pattern: seq<byte>, f: FileHandle, data: seq<byte>, chunk: nat) returns (got: seq<byte>)
      requires |data| < size && |data| + chunk <= size
      requires 0 < chunk || |pattern| == 0
      requires startFileAddress + size <= |f.data| || Find(Contents(f.data), pattern) != -1
      requires |data| <= |Contents(f.data)| && data == Contents(f.data)[..|data|]
      requires f.pos == startFileAddress + |data|
      modifies f
      ensures f.pos == startFileAddress + |data + got| <= startFileAddress + size
      ensures |data + got| <= |Contents(f.data)| && data + got == Contents(f.data)[..|data + got|]
      ensures Find(data + got, pattern) != -1 ==> Find(Contents(f.data), pattern) == Find(data + got, pattern)
      ensures Find(data + got, pattern) == -1 ==> |data| < |data + got|
    {
      got := f.Read(chunk);
      ChunkRound(f.data, startFileAddress, size, data, got, chunk, pattern);
    }
  }

  /** One round of the find-first loop: the chunk read extends `data` as a
      prefix of the segment's bytes, a match found in them so far is the
      leftmost match of the whole segment, and a round that finds nothing
      has read at least one byte. */
  lemma ChunkRound(file: seq<byte>, start: nat, size: nat, data: seq<byte>, got: seq<byte>, c: nat, pattern: seq<byte>)
    requires |data| < size && |data| + c <= size
    requires 0 < c || |pattern| == 0
    requires start + size <= |file| || Find(Slice(file, start, size), pattern) != -1
    requires |data| <= |Slice(file, start, size)| && data == Slice(file, start, size)[..|data|]
    requires got == Slice(file, start + |data|, c)
    ensures |data + got| <= |Slice(file, start, size)| && data + got == Slice(file, start, size)[..|data + got|]
    ensures Find(data + got, pattern) != -1 ==> Find(Slice(file, start, size), pattern) == Find(data + got, pattern)
    ensures Find(data + got, pattern) == -1 ==> |data| < |data + got|
  {
    var s := Slice(file, start, size);
    ChunkExtends(file, start, size, data, got, c);
    if Find(data + got, pattern) != -1 {
      FirstInPrefix(s, pattern, data + got);
    } else {
      ChunkProgress(file, start, size, data, got, c, pattern);
    }
  }

  /** A chunk read after which nothing has been found made progress: with
      a positive chunk size the read can come back empty only at the end of
      the file, and then the whole of the segment's bytes, which hold the
      pattern or are complete, have been searched. */
  lemma ChunkProgress(file: seq<byte>, start: nat, size: nat, data: seq<byte>, got: seq<byte>, c: nat, pattern: seq<byte>)
    requires |data| < size
    requires 0 < c || |pattern| == 0
    requires start + size <= |file| || Find(Slice(file, start, size), pattern) != -1
    requires |data| + |got| <= |Slice(file, start, size)|
    requires |got| < c ==> data + got == Slice(file, start, size)
    requires Find(data + got, pattern) == -1
    ensures 0 < |got|
  {
  }

  /** The bytes a chunk read returns continue the segment's contents read
      so far; a chunk shorter than asked for means the file has ended, and
      with it the segment's contents. */
  lemma ChunkExtends(file: seq<byte>, start: nat, size: nat, data: seq<byte>, got: seq<byte>, c: nat)
    requires |data| + c <= size
    requires |data| <= |Slice(file, start, size)| && data == Slice(file, start, size)[..|data|]
    requires got == Slice(file, start + |data|, c)
    ensures |data| + |got| <= |Slice(file, start, size)|
    ensures data + got == Slice(file, start, size)[..|data| + |got|]
    ensures |got| < c ==> data + got == Slice(file, start, size)
  {
    var s := Slice(file, start, size);
    if start + |data| <= |file| {
      var hi := Min(start + size, |file|);
      assert s == file[start..hi];
      assert start + |data| + |got| <= hi;
      SliceOfSlice(file, start, hi, |data|, |data| + |got|);
      assert got == s[|data|..|data| + |got|];
      assert s[..|data| + |got|] == s[..|data|] + s[|data|..|data| + |got|];
    } else {
      assert got == [] && data == s;
    }
  }

  /** The find_first == False branch of `search` once the segment's bytes
      are in memory: find the leftmost match, record it, and search again
      from the byte after it, while more bytes remain than the pattern
      has. Offsets are reported relative to base. */
  method ScanAll(data: seq<byte>, pattern: seq<byte>, base: nat) returns (fl: seq<nat>)
    ensures fl == Shifted(ScanOffsets(data, pattern), base)
  {
    ghost var s := data;
    var rest := data;
    var offset: nat := 0;
    fl := [];
    while |rest| > |pattern|
      invariant offset <= |s| && rest == s[offset..]
      invariant offset == 0 || OccursAt(s, pattern, offset - 1)
      invariant fl == Shifted(MatchesBelow(s, pattern, offset), base)
      decreases |rest|
    {
      var marker := Find(rest, pattern);
      if marker == -1 {
        ScanStops(s, pattern, offset);
        return fl;
      }
      ScanAdvance(s, pattern, offset, marker, base, fl);
      fl := fl + [base + offset + marker];
      rest := rest[marker + 1..];
      offset := offset + marker + 1;
    }
    ScanExhausted(s, pattern, offset);
  }

  /** One round of the scan, as the loop sees it: the match it records is
      the next reported offset, and the rest of the data is the suffix
      after it. */
  lemma ScanAdvance(s: seq<byte>, p: seq<byte>, offset: nat, marker: int, base: nat, fl: seq<nat>)
    requires offset <= |s| && |s| - offset > |p|
    requires marker == Find(s[offset..], p) && marker != -1
    requires fl == Shifted(MatchesBelow(s, p, offset), base)
    ensures offset + marker < |s| && OccursAt(s, p, offset + marker)
    ensures fl + [base + offset + marker] == Shifted(MatchesBelow(s, p, offset + marker + 1), base)
    ensures s[offset..][marker + 1..] == s[offset + marker + 1..]
  {
    ScanStep(s, p, offset, marker);
    ShiftedAppend(MatchesBelow(s, p, offset), offset + marker, base);
  }

  lemma {:induction false} ShiftedAppend(offsets: seq<nat>, x: nat, base: nat)
    ensures Shifted(offsets + [x], base) == Shifted(offsets, base) + [base + x]
  {
    if offsets != [] {
      assert (offsets + [x])[1..] == offsets[1..] + [x];
      ShiftedAppend(offsets[1..], x, base);
    }
  }

  /** The scan also stops once no more bytes remain than the pattern has:
      the only window left is the one it resumed at, which was the byte
      after a match (or the start), so nothing from there on is reported. */
  lemma ScanExhausted(s: seq<byte>, p: seq<byte>, offset: nat)
    requires offset <= |s| && |s| - offset <= |p|
    requires offset == 0 || OccursAt(s, p, offset - 1)
    ensures ScanOffsets(s, p) == MatchesBelow(s, p, offset)
  {
    forall i: nat | offset <= i
      ensures !Reported(s, p, i)
    {
    }
    NoneReported(s, p, offset);
  }

  /** One round of the all-matches scan: the leftmost match in the suffix
      from offset is the next reported offset, and none lies between. */
  lemma ScanStep(s: seq<byte>, p: seq<byte>, offset: nat, marker: int)
    requires offset <= |s| && |s| - offset > |p|
    requires marker == Find(s[offset..], p) && marker != -1
    ensures offset + marker < |s| && OccursAt(s, p, offset + marker)
    ensures MatchesBelow(s, p, offset + marker + 1) == MatchesBelow(s, p, offset) + [offset + marker]
  {
    FindLeftmost(s[offset..], p);
    forall i: nat | offset <= i < offset + marker
      ensures !Reported(s, p, i)
    {
      OccursInSuffix(s, p, offset, i - offset);
    }
    OccursInSuffix(s, p, offset, marker);
    if 0 < marker {
      OccursInSuffix(s, p, offset, marker - 1);
    }
    assert Reported(s, p, offset + marker);
    MatchesUnchanged(s, p, offset, offset + marker);
  }

  /** The scan stops when the suffix from offset holds no match: the
      result so far is the whole result. */
  lemma ScanStops(s: seq<byte>, p: seq<byte>, offset: nat)
    requires offset <= |s| && Find(s[offset..], p) == -1
    ensures ScanOffsets(s, p) == MatchesBelow(s, p, offset)
  {
    FindLeftmost(s[offset..], p);
    forall i: nat | offset <= i
      ensures !Reported(s, p, i)
    {
      OccursInSuffix(s, p, offset, i - offset);
    }
    NoneReported(s, p, offset);
  }

  /** `__init__` with `__post_init__`: the end address is derived from the
      start and the size. */
  function NewSegment(size: nat, startFileAddress: nat, startVirtualAddress: nat): (s: Segment)
    ensures s.Valid()
    ensures s.size == size && s.startFileAddress == startFileAddress
    ensures s.startVirtualAddress == startVirtualAddress
  {
    Segment(size, startFileAddress, startVirtualAddress, startVirtualAddress + size)
  }

  /** A segment contains exactly the addresses of [start, start + size);
      one of size 0 contains none. */
  lemma InRangeIff(s: Segment, va: int)
    requires s.Valid()
    ensures s.InRange(va) <==> s.startVirtualAddress <= va < s.startVirtualAddress + s.size
    ensures s.size == 0 ==> !s.InRange(va)
  {
  }

  /** A negative address lies in no segment: `inrange` rejects it and
      `validate_address` reports the wrong segment, whatever the size. */
  lemma NegativeAddressRejected(s: Segment, va: int, n: int)
    requires va < 0
    ensures !s.InRange(va)
    ensures s.ValidateAddress(va, n) == Fail(WrongSegment)
  {
  }

  /** A non-empty read that validates touches only addresses the segment
      contains: its first and its last. */
  lemma ValidReadInRange(s: Segment, va: int, n: nat)
    requires s.ValidateAddress(va, n) == Pass && 0 < n
    ensures s.InRange(va) && s.InRange(va + n - 1)
  {
  }

  // ---------------------------------------------------------------------
  // What an all-matches search reports
  // ---------------------------------------------------------------------

  /** Whether an all-matches search over s reports offset i: every
      occurrence of p whose window ends before the end of s, and the one
      in the last window only when the scan did not resume exactly there,
      i.e. when it is not at 0 and p does not occur one byte earlier. */
  predicate Reported(s: seq<byte>, p: seq<byte>, i: nat) {
    OccursAt(s, p, i) && (i + |p| < |s| || (0 < i && !OccursAt(s, p, i - 1)))
  }

  /** The reported offsets below hi, in increasing order. */
  function MatchesBelow(s: seq<byte>, p: seq<byte>, hi: nat): seq<nat> {
    if hi == 0 then []
    else MatchesBelow(s, p, hi - 1) + (if Reported(s, p, hi - 1) then [hi - 1] else [])
  }

  /** The offsets an all-matches search reports, in increasing order. */
  function ScanOffsets(s: seq<byte>, p: seq<byte>): seq<nat> {
    MatchesBelow(s, p, |s| + 1)
  }

  /** Offsets turned into virtual addresses. */
  function Shifted(offsets: seq<nat>, base: nat): (r: seq<nat>)
    ensures |r| == |offsets|
    ensures forall i :: 0 <= i < |r| ==> r[i] == base + offsets[i]
  {
    if |offsets| == 0 then [] else [base + offsets[0]] + Shifted(offsets[1..], base)
  }

  lemma {:induction false} MatchesUnchanged(s: seq<byte>, p: seq<byte>, lo: nat, hi: nat)
    requires lo <= hi
    requires forall i: nat :: lo <= i < hi ==> !Reported(s, p, i)
    ensures MatchesBelow(s, p, hi) == MatchesBelow(s, p, lo)
    decreases hi
  {
    if lo < hi {
      MatchesUnchanged(s, p, lo, hi - 1);
    }
  }

  /** Nothing at or after lo is reported, so the full result is the one
      below lo. */
  lemma NoneReported(s: seq<byte>, p: seq<byte>, lo: nat)
    requires lo <= |s| + 1
    requires forall i: nat :: lo <= i ==> !Reported(s, p, i)
    ensures ScanOffsets(s, p) == MatchesBelow(s, p, lo)
  {
    MatchesUnchanged(s, p, lo, |s| + 1);
  }

  lemma NoOccurrence(s: seq<byte>, p: seq<byte>)
    requires |p| > |s|
    ensures forall i: nat :: !Reported(s, p, i)
  {
  }

  /** The leftmost occurrence in a prefix that was searched after the
      previous, shorter prefix had none is the leftmost one of the whole. */
  lemma FirstInPrefix(s: seq<byte>, p: seq<byte>, prefix: seq<byte>)
    requires |prefix| <= |s| && prefix == s[..|prefix|] && Find(prefix, p) != -1
    ensures Find(s, p) == Find(prefix, p)
  {
    var marker := Find(prefix, p);
    FindLeftmost(prefix, p);
    FindLeftmost(s, p);
    OccursInPrefix(s, p, |prefix|, marker);
    forall i: nat | i < marker
      ensures !OccursAt(s, p, i)
    {
      OccursInPrefix(s, p, |prefix|, i);
    }
  }

  lemma {:induction false} MatchesBelowMembers(s: seq<byte>, p: seq<byte>, hi: nat)
    ensures forall i: nat :: i in MatchesBelow(s, p, hi) <==> i < hi && Reported(s, p, i)
    ensures forall j, k :: 0 <= j < k < |MatchesBelow(s, p, hi)| ==>
      MatchesBelow(s, p, hi)[j] < MatchesBelow(s, p, hi)[k]
    decreases hi
  {
    if hi > 0 {
      MatchesBelowMembers(s, p, hi - 1);
      var below := MatchesBelow(s, p, hi - 1);
      forall j | 0 <= j < |below| ensures below[j] < hi - 1 {
        assert below[j] in below;
      }
    }
  }

  /** The all-matches result is strictly increasing and holds exactly the
      reported offsets. */
  lemma ScanOffsetsSpec(s: seq<byte>, p: seq<byte>)
    ensures forall i: nat :: i in ScanOffsets(s, p) <==> Reported(s, p, i)
    ensures forall j, k :: 0 <= j < k < |ScanOffsets(s, p)| ==> ScanOffsets(s, p)[j] < ScanOffsets(s, p)[k]
  {
    MatchesBelowMembers(s, p, |s| + 1);
    forall i: nat | Reported(s, p, i) ensures i < |s| + 1 { }
  }

  /** Every occurrence that does not sit in the last window of s is
      reported, overlapping ones included. */
  lemma InnerOccurrencesReported(s: seq<byte>, p: seq<byte>, i: nat)
    requires OccursAt(s, p, i) && i + |p| < |s|
    ensures i in ScanOffsets(s, p)
  {
    ScanOffsetsSpec(s, p);
  }

  /** The last window is skipped when the scan resumes exactly there: when
      s is the pattern itself, or p also occurs one byte earlier. */
  lemma LastWindowSkipped(s: seq<byte>, p: seq<byte>)
    requires |p| <= |s| && OccursAt(s, p, |s| - |p|)
    requires |s| == |p| || OccursAt(s, p, |s| - |p| - 1)
    ensures |s| - |p| !in ScanOffsets(s, p)
  {
    ScanOffsetsSpec(s, p);
  }
}

/** Worked examples of the two search modes, with bytes written as their
    ASCII codes ('A' = 65, 'B' = 66, 'C' = 67, 'D' = 68). */
module SearchExamples {
  import opened Bytes
  import opened CommonStructs

  /** A match that straddles two chunks is still found: the first-match
      search runs Find over everything read so far, whatever the chunk
      size ("AABCCDD", pattern "BCC", at offset 2). */
  lemma StraddlingMatchFound()
    ensures Find([65, 65, 66, 67, 67, 68, 68], [66, 67, 67]) == 2
  {
    var s: seq<byte> := [65, 65, 66, 67, 67, 68, 68];
    var p: seq<byte> := [66, 67, 67];
    assert s[2..5] == p;
    assert !OccursAt(s, p, 0) by { assert s[0..3][0] != p[0]; }
    assert !OccursAt(s, p, 1) by { assert s[1..4][0] != p[0]; }
  }

  /** Overlapping matches are reported: "ABABA" with "ABA" gives [0, 2]. */
  lemma OverlappingMatches()
    ensures ScanOffsets([65, 66, 65, 66, 65], [65, 66, 65]) == [0, 2]
  {
    var s: seq<byte> := [65, 66, 65, 66, 65];
    var p: seq<byte> := [65, 66, 65];
    assert Reported(s, p, 0) by { assert s[0..3] == p; }
    assert !OccursAt(s, p, 1) by { assert s[1..4][0] != p[0]; }
    assert Reported(s, p, 2) by { assert s[2..5] == p; }
    MatchesUnchanged(s, p, 3, 6);
    assert MatchesBelow(s, p, 1) == [0];
    assert MatchesBelow(s, p, 3) == [0, 2];
  }

  /** The strict loop guard skips the last window after a match one byte
      earlier: "AAAA" with "AA" gives [0, 1], not [0, 1, 2]. */
  lemma LastWindowAfterMatchSkipped()
    ensures ScanOffsets([65, 65, 65, 65], [65, 65]) == [0, 1]
  {
    var s: seq<byte> := [65, 65, 65, 65];
    var p: seq<byte> := [65, 65];
    assert Reported(s, p, 0) by { assert s[0..2] == p; }
    assert Reported(s, p, 1) by { assert s[1..3] == p; }
    assert OccursAt(s, p, 1) by { assert s[1..3] == p; }
    assert !Reported(s, p, 3) && !Reported(s, p, 4);
    MatchesUnchanged(s, p, 2, 5);
    assert MatchesBelow(s, p, 1) == [0];
    assert MatchesBelow(s, p, 2) == [0, 1];
  }

  /** A segment whose bytes are exactly the pattern reports nothing. */
  lemma WholeSegmentMatchSkipped(p: seq<byte>)
    ensures ScanOffsets(p, p) == []
  {
    NoneReported(p, p, 0);
  }
}
