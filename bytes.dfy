/**
  Unsigned little-endian integers of a fixed byte width, the cursor-based
  in-memory reader the record decoders consume, and substring search over
  byte strings. These are the primitives the minidump record codecs and
  memory segments are built from.
 */
module Bytes {

  newtype byte = x: int | 0 <= x < 256

  function Min(a: int, b: int): int {
    if a <= b then a else b
  }

  /** 256^k: one more than the largest value that fits in k bytes. */
  function Pow256(k: nat): (r: nat)
    ensures r > 0
  {
    if k == 0 then 1 else 256 * Pow256(k - 1)
  }

  /** Unsigned little-endian decoding of any number of bytes (0 for none),
      as `int.from_bytes(b, "little", signed=False)` does. */
  function DecodeLE(s: seq<byte>): (n: nat)
    ensures n < Pow256(|s|)
  {
    if |s| == 0 then 0
    else
      var rest := DecodeLE(s[1..]);
      assert rest <= Pow256(|s| - 1) - 1;
      assert 256 * rest <= 256 * Pow256(|s| - 1) - 256;
      s[0] as nat + 256 * rest
  }

  /** Unsigned little-endian encoding of n in exactly k bytes, as
      `n.to_bytes(k, "little", signed=False)` does; that call raises when n
      does not fit, so fitting is the caller's obligation here. */
  function EncodeLE(n: nat, k: nat): (s: seq<byte>)
    requires n < Pow256(k)
    ensures |s| == k
  {
    if k == 0 then []
    else
      assert n / 256 < Pow256(k - 1);
      [(n % 256) as byte] + EncodeLE(n / 256, k - 1)
  }

  lemma {:induction false} DecodeEncode(n: nat, k: nat)
    requires n < Pow256(k)
    ensures DecodeLE(EncodeLE(n, k)) == n
  {
    if k > 0 {
      DecodeEncode(n / 256, k - 1);
      assert EncodeLE(n, k)[1..] == EncodeLE(n / 256, k - 1);
    }
  }

  lemma {:induction false} EncodeDecode(s: seq<byte>)
    ensures EncodeLE(DecodeLE(s), |s|) == s
  {
    if |s| > 0 {
      var rest := DecodeLE(s[1..]);
      var n := s[0] as nat + 256 * rest;
      assert n % 256 == s[0] as nat;
      assert n / 256 == rest;
      EncodeDecode(s[1..]);
    }
  }

  /** The bytes a read of n bytes at position p returns from d: fewer than n
      (possibly none) when d ends first, as with Python's file and BytesIO
      objects. */
  function Slice(d: seq<byte>, p: nat, n: nat): (r: seq<byte>)
    ensures |r| <= n
    ensures p + n <= |d| ==> r == d[p..p + n]
    ensures p <= |d| ==> |r| == Min(n, |d| - p)
    ensures p <= |d| ==> r == d[p..Min(p + n, |d|)]
    ensures |d| < p ==> r == []
  {
    d[Min(p, |d|)..Min(p + n, |d|)]
  }

  /** A slice of a slice is a slice of the whole. */
  lemma SliceOfSlice(s: seq<byte>, lo: nat, hi: nat, i: nat, j: nat)
    requires lo <= hi <= |s| && i <= j <= hi - lo
    ensures s[lo..hi][i..j] == s[lo + i..lo + j]
  {
    forall k | 0 <= k < j - i
      ensures s[lo..hi][i..j][k] == s[lo + i..lo + j][k]
    {
    }
  }

  /** Where a + c is stored at p, a is stored at p and c right after it. */
  lemma StoredConcat(data: seq<byte>, p: nat, a: seq<byte>, c: seq<byte>)
    requires p + |a| + |c| <= |data| && data[p..p + |a| + |c|] == a + c
    ensures data[p..p + |a|] == a
    ensures data[p + |a|..p + |a| + |c|] == c
  {
    forall k | 0 <= k < |a|
      ensures data[p..p + |a|][k] == a[k]
    {
      assert data[p..p + |a|][k] == data[p..p + |a| + |c|][k];
    }
    forall k | 0 <= k < |c|
      ensures data[p + |a|..p + |a| + |c|][k] == c[k]
    {
      assert data[p + |a|..p + |a| + |c|][k] == data[p..p + |a| + |c|][|a| + k];
    }
  }

  /** A slice that ends inside the first part of a concatenation is a
      slice of that part. */
  lemma SliceOfConcat(a: seq<byte>, b: seq<byte>, i: nat, j: nat)
    requires i <= j <= |a|
    ensures (a + b)[i..j] == a[i..j]
  {
    forall k | 0 <= k < j - i
      ensures (a + b)[i..j][k] == a[i..j][k]
    {
    }
  }

  /** An in-memory stream (Python's io.BytesIO) with its read position; the
      decoders thread it through and return the advanced reader. */
  datatype Reader = Reader(data: seq<byte>, pos: nat) {

    function Read(n: nat): (res: (seq<byte>, Reader))
      ensures |res.0| <= n && res.1.data == data
      ensures pos + n <= |data| ==> res.0 == data[pos..pos + n] && res.1.pos == pos + n
      ensures pos <= |data| ==> res.1.pos == Min(pos + n, |data|)
      ensures res.0 == Slice(data, pos, n) && res.1.pos == pos + |res.0|
    {
      var b := Slice(data, pos, n);
      (b, Reader(data, pos + |b|))
    }
  }

  /** Whether pattern p occurs in s starting at index i. */
  predicate OccursAt(s: seq<byte>, p: seq<byte>, i: nat) {
    i + |p| <= |s| && s[i..i + |p|] == p
  }

  /** The leftmost occurrence of p in s at or after lo, or -1. */
  function FindFrom(s: seq<byte>, p: seq<byte>, lo: nat): (r: int)
    ensures r == -1 || (lo <= r && OccursAt(s, p, r))
    decreases |s| - lo
  {
    if lo + |p| > |s| then -1
    else if s[lo..lo + |p|] == p then lo
    else FindFrom(s, p, lo + 1)
  }

  /** FindFrom finds the leftmost occurrence at or after lo, and returns -1
      only when there is none. */
  lemma {:induction false} FindFromLeftmost(s: seq<byte>, p: seq<byte>, lo: nat)
    ensures FindFrom(s, p, lo) == -1 ==> forall i: nat :: lo <= i ==> !OccursAt(s, p, i)
    ensures FindFrom(s, p, lo) != -1 ==> forall i: nat :: lo <= i < FindFrom(s, p, lo) ==> !OccursAt(s, p, i)
    decreases |s| - lo
  {
    if lo + |p| <= |s| && s[lo..lo + |p|] != p {
      FindFromLeftmost(s, p, lo + 1);
    }
  }

  /** `bytes.find`: the index of the leftmost occurrence of p in s, or -1
      when there is none (an empty p is found at 0). */
  function Find(s: seq<byte>, p: seq<byte>): (r: int)
    ensures r == -1 || (0 <= r && OccursAt(s, p, r))
    ensures |p| == 0 ==> r == 0
  {
    FindFrom(s, p, 0)
  }

  /** Find returns -1 exactly when p does not occur in s, and otherwise no
      occurrence lies before the one it returns. */
  lemma FindLeftmost(s: seq<byte>, p: seq<byte>)
    ensures Find(s, p) == -1 <==> forall i: nat :: !OccursAt(s, p, i)
    ensures Find(s, p) != -1 ==> forall i: nat :: i < Find(s, p) ==> !OccursAt(s, p, i)
  {
    FindFromLeftmost(s, p, 0);
  }

  /** An occurrence inside a prefix is an occurrence in the whole, and one
      that ends inside the prefix is an occurrence in the prefix. */
  lemma OccursInPrefix(s: seq<byte>, p: seq<byte>, len: nat, i: nat)
    requires len <= |s|
    ensures OccursAt(s[..len], p, i) <==> OccursAt(s, p, i) && i + |p| <= len
  {
    if i + |p| <= len {
      assert s[..len][i..i + |p|] == s[i..i + |p|];
    }
  }

  /** Occurrences in a suffix are the occurrences in the whole, shifted. */
  lemma OccursInSuffix(s: seq<byte>, p: seq<byte>, off: nat, j: nat)
    requires off <= |s|
    ensures OccursAt(s[off..], p, j) <==> OccursAt(s, p, off + j)
  {
    if off + j + |p| <= |s| {
      assert s[off..][j..j + |p|] == s[off + j..off + j + |p|];
    }
  }
}
