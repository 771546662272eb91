/** The chunker of the offline transcription: the decoded 16 kHz, mono,
    16-bit PCM buffer is cut into consecutive windows of 30 seconds
    (app.py:91-92).  The list comprehension over `range(0, len, step)` is
    modelled as `Range` followed by Python-style slicing with `Slice`. */
module Chunker {

  newtype Byte = b: int | 0 <= b < 256

  /** One window of raw PCM bytes, as handed to the recogniser. */
  type Chunk = seq<Byte>

  const SampleRate: nat := 16000
  const SampleWidth: nat := 2
  const ChunkSeconds: nat := 30
  /** `chunk_size` in the source: samples per window. */
  const ChunkSamples: nat := ChunkSeconds * SampleRate
  /** `chunk_size*2` in the source: bytes per window, 960000. */
  const ChunkBytes: nat := ChunkSamples * SampleWidth

  function Min(a: nat, b: nat): nat
  {
    if a <= b then a else b
  }

  /** Ceiling of n / d. */
  function CeilDiv(n: nat, d: nat): nat
    requires d > 0
  {
    (n + d - 1) / d
  }

  /** Concatenation of a sequence of sequences, in order. */
  function Flatten<T>(ss: seq<seq<T>>): seq<T>
  {
    if ss == [] then [] else Flatten(ss[..|ss| - 1]) + ss[|ss| - 1]
  }

  /** Python's `s[lo:hi]` for non-negative bounds: both bounds are clamped
      to the length, and the slice is empty when `hi <= lo`. */
  function Slice<T>(s: seq<T>, lo: nat, hi: nat): (r: seq<T>)
    ensures |r| == if lo < hi && lo < |s| then Min(hi, |s|) - lo else 0
    ensures forall i :: 0 <= i < |r| ==> r[i] == s[lo + i]
  {
    var l := Min(lo, |s|);
    var h := Min(hi, |s|);
    if h <= l then [] else s[l..h]
  }

  /** Python's `range(start, stop, step)` for a positive step. */
  function Range(start: nat, stop: nat, step: nat): seq<nat>
    requires step > 0
    decreases stop - start
  {
    if start < stop then [start] + Range(start + step, stop, step) else []
  }

  /** `[data[i:i+size] for i in range(0, len(data), size)]` (app.py:92). */
  function Chunks(data: seq<Byte>, size: nat): seq<Chunk>
    requires size > 0
  {
    var offsets := Range(0, |data|, size);
    seq(|offsets|, k requires 0 <= k < |offsets| => Slice(data, offsets[k], offsets[k] + size))
  }

  // ---------------------------------------------------------------------
  // Arithmetic facts about ceiling division

  /** If q*d <= x < (q+1)*d then q is the quotient x / d. */
  lemma DivUnique(x: nat, d: nat, q: nat)
    requires d > 0
    requires q * d <= x < q * d + d
    ensures x / d == q
  {
    var q', r' := x / d, x % d;
    assert x == q' * d + r' && 0 <= r' < d;
    if q' < q {
      assert (q' + 1) * d <= q * d by { MulMonotone(q' + 1, q, d); }
      assert false;
    } else if q' > q {
      assert (q + 1) * d <= q' * d by { MulMonotone(q + 1, q', d); }
      assert false;
    }
  }

  lemma MulMonotone(a: nat, b: nat, d: nat)
    requires a <= b
    ensures a * d <= b * d
  {
    assert b * d == a * d + (b - a) * d;
  }

  lemma DivMonotone(a: nat, b: nat, n: nat)
    requires a <= b && n > 0
    ensures a / n <= b / n
  {
    var qa, qb := a / n, b / n;
    assert a == qa * n + a % n && b == qb * n + b % n;
    if qa > qb {
      MulMonotone(qb + 1, qa, n);
    }
  }

  /** The ceiling is the least multiple count that reaches n. */
  lemma CeilDivBounds(n: nat, d: nat)
    requires d > 0
    ensures CeilDiv(n, d) * d >= n
    ensures n > 0 ==> (CeilDiv(n, d) - 1) * d < n
    ensures n == 0 <==> CeilDiv(n, d) == 0
  {
    var q, r := (n + d - 1) / d, (n + d - 1) % d;
    assert n + d - 1 == q * d + r && 0 <= r < d;
    if n == 0 {
      DivUnique(d - 1, d, 0);
    } else {
      assert (q - 1) * d == q * d - d;
    }
  }

  /** Peeling one step off a ceiling division. */
  lemma CeilDivStep(n: nat, d: nat)
    requires d > 0 && n > 0
    ensures CeilDiv(n, d) == 1 + (if n > d then CeilDiv(n - d, d) else 0)
  {
    if n > d {
      var q := CeilDiv(n - d, d);
      CeilDivBounds(n - d, d);
      assert q * d + d <= n + d - 1 < q * d + d + d by {
        assert (q - 1) * d == q * d - d;
      }
      assert (q + 1) * d == q * d + d;
      DivUnique(n + d - 1, d, q + 1);
    } else {
      assert 1 * d <= n + d - 1 < 1 * d + d;
      DivUnique(n + d - 1, d, 1);
    }
  }

  // ---------------------------------------------------------------------
  // Properties of range and of the chunker

  /** `range(start, stop, step)` has ceil((stop-start)/step) elements, the
      k-th of which is start + k*step. */
  lemma {:induction false} RangeShape(start: nat, stop: nat, step: nat)
    requires step > 0
    ensures |Range(start, stop, step)| == if start < stop then CeilDiv(stop - start, step) else 0
    ensures forall k :: 0 <= k < |Range(start, stop, step)| ==> Range(start, stop, step)[k] == start + k * step
    decreases stop - start
  {
    if start < stop {
      RangeShape(start + step, stop, step);
      CeilDivStep(stop - start, step);
      var r := Range(start, stop, step);
      forall k | 0 <= k < |r| ensures r[k] == start + k * step {
        if k > 0 {
          assert r[k] == Range(start + step, stop, step)[k - 1];
          assert start + step + (k - 1) * step == start + k * step;
        }
      }
    }
  }

  /** Chunk k is the byte range [k*size, min((k+1)*size, L)) of the buffer,
      starts strictly inside it, and there are ceil(L/size) chunks. */
  lemma ChunkAt(data: seq<Byte>, size: nat, k: nat)
    requires size > 0
    requires k < |Chunks(data, size)|
    ensures k * size < |data|
    ensures Chunks(data, size)[k] == data[k * size .. Min((k + 1) * size, |data|)]
  {
    RangeShape(0, |data|, size);
    var n := |Chunks(data, size)|;
    CeilDivBounds(|data|, size);
    MulMonotone(k, n - 1, size);
    assert (k + 1) * size == k * size + size;
    var c := Chunks(data, size)[k];
    assert c == Slice(data, k * size, k * size + size);
  }

  /** A buffer of L bytes yields exactly ceil(L / size) chunks; an empty
      buffer yields none (app.py:91-92). */
  lemma ChunkCount(data: seq<Byte>, size: nat)
    requires size > 0
    ensures |Chunks(data, size)| == CeilDiv(|data|, size)
    ensures Chunks(data, size) == [] <==> data == []
  {
    RangeShape(0, |data|, size);
    CeilDivBounds(|data|, size);
  }

  /** The remainder left for the last of ceil(n/d) windows: between 1 and
      d, namely n mod d, or d when that is 0. */
  lemma LastWindow(n: nat, d: nat)
    requires d > 0 && n > 0
    ensures var c := CeilDiv(n, d);
      c >= 1 && 1 <= n - (c - 1) * d <= d
      && n - (c - 1) * d == (if n % d == 0 then d else n % d)
  {
    var c := CeilDiv(n, d);
    CeilDivBounds(n, d);
    assert c * d == (c - 1) * d + d;
    var q, r := n / d, n % d;
    assert n == q * d + r;
    if r == 0 {
      DivUnique(n + d - 1, d, q);
      assert (q - 1) * d == q * d - d;
    } else {
      assert (q + 1) * d == q * d + d;
      DivUnique(n + d - 1, d, q + 1);
    }
  }

  /** Every chunk but the last holds exactly `size` bytes (app.py:92). */
  lemma FullChunks(data: seq<Byte>, size: nat)
    requires size > 0
    ensures forall k :: 0 <= k < |Chunks(data, size)| - 1 ==> |Chunks(data, size)[k]| == size
  {
    var n := |Chunks(data, size)|;
    forall k | 0 <= k < n - 1 ensures |Chunks(data, size)[k]| == size {
      ChunkAt(data, size, k);
      ChunkCount(data, size);
      CeilDivBounds(|data|, size);
      MulMonotone(k + 1, n - 1, size);
    }
  }

  /** The last chunk holds between 1 and `size` bytes: L mod size, or size
      when that is 0 (app.py:92). */
  lemma LastChunk(data: seq<Byte>, size: nat)
    requires size > 0 && data != []
    ensures var cs := Chunks(data, size);
      cs != []
      && 1 <= |cs[|cs| - 1]| <= size
      && |cs[|cs| - 1]| == |data| - (|cs| - 1) * size
      && |cs[|cs| - 1]| == (if |data| % size == 0 then size else |data| % size)
  {
    var cs := Chunks(data, size);
    var n := |cs|;
    ChunkCount(data, size);
    CeilDivBounds(|data|, size);
    LastWindow(|data|, size);
    ChunkAt(data, size, n - 1);
    assert (n - 1 + 1) * size == n * size >= |data|;
    assert cs[n - 1] == data[(n - 1) * size .. |data|];
  }

  /** Every chunk but the last holds exactly `size` bytes; the last holds
      between 1 and `size` bytes: L mod size, or size when that is 0. */
  lemma ChunkLengths(data: seq<Byte>, size: nat)
    requires size > 0
    ensures var cs := Chunks(data, size);
      forall k :: 0 <= k < |cs| - 1 ==> |cs[k]| == size
    ensures var cs := Chunks(data, size);
      cs != [] ==>
        (1 <= |cs[|cs| - 1]| <= size
         && |cs[|cs| - 1]| == |data| - (|cs| - 1) * size
         && |cs[|cs| - 1]| == (if |data| % size == 0 then size else |data| % size))
  {
    FullChunks(data, size);
    if data != [] {
      LastChunk(data, size);
    } else {
      ChunkCount(data, size);
    }
  }

  /** Chunk k is Python's `data[k*size : k*size+size]` and is never empty. */
  lemma ChunkSlices(data: seq<Byte>, size: nat)
    requires size > 0
    ensures forall k :: 0 <= k < |Chunks(data, size)| ==>
      Chunks(data, size)[k] == Slice(data, k * size, k * size + size)
      && 1 <= |Chunks(data, size)[k]| <= size
  {
    var cs := Chunks(data, size);
    RangeShape(0, |data|, size);
    forall k | 0 <= k < |cs| ensures 1 <= |cs[k]| <= size {
      ChunkAt(data, size, k);
    }
  }

  /** Concatenating the first j chunks gives the first min(j*size, L) bytes. */
  lemma {:induction false} ChunksPrefix(data: seq<Byte>, size: nat, j: nat)
    requires size > 0
    requires j <= |Chunks(data, size)|
    ensures Flatten(Chunks(data, size)[..j]) == data[..Min(j * size, |data|)]
  {
    var cs := Chunks(data, size);
    if j > 0 {
      ChunksPrefix(data, size, j - 1);
      ChunkAt(data, size, j - 1);
      assert cs[..j][..j - 1] == cs[..j - 1];
      assert Flatten(cs[..j]) == Flatten(cs[..j - 1]) + cs[j - 1];
      assert (j - 1 + 1) * size == j * size;
      assert data[..(j - 1) * size] + data[(j - 1) * size .. Min(j * size, |data|)]
          == data[..Min(j * size, |data|)];
    }
  }

  /** The chunks, concatenated in order, reconstruct the buffer exactly:
      no gap and no overlap (app.py:92). */
  lemma ChunksCover(data: seq<Byte>, size: nat)
    requires size > 0
    ensures Flatten(Chunks(data, size)) == data
  {
    var cs := Chunks(data, size);
    ChunksPrefix(data, size, |cs|);
    ChunkCount(data, size);
    CeilDivBounds(|data|, size);
    assert cs[..|cs|] == cs;
  }

  /** A multiple of a multiple of w is a multiple of w. */
  lemma MultipleOfMultiple(k: nat, size: nat, w: nat)
    requires w > 0 && size % w == 0
    ensures (k * size) % w == 0
  {
    var m := size / w;
    assert size == w * m;
    assert k * size == w * (k * m);
    DivUnique(k * size, w, k * m);
  }

  /** Chunk k starts at byte offset k*size; when size is a whole number of
      samples, every boundary falls on a sample boundary (app.py:92). */
  lemma ChunkOffsetsAligned(data: seq<Byte>, size: nat)
    requires size > 0 && size % SampleWidth == 0
    ensures var offsets := Range(0, |data|, size);
      |offsets| == |Chunks(data, size)|
      && forall k :: 0 <= k < |offsets| ==> offsets[k] == k * size && offsets[k] % SampleWidth == 0
  {
    var offsets := Range(0, |data|, size);
    RangeShape(0, |data|, size);
    forall k | 0 <= k < |offsets| ensures offsets[k] % SampleWidth == 0 {
      MultipleOfMultiple(k, size, SampleWidth);
    }
  }

  /** When the buffer holds whole samples and the window size is a whole
      number of samples, every chunk holds whole samples. */
  lemma ChunksWholeSamples(data: seq<Byte>, size: nat)
    requires size > 0 && size % SampleWidth == 0
    requires |data| % SampleWidth == 0
    ensures forall k :: 0 <= k < |Chunks(data, size)| ==> |Chunks(data, size)[k]| % SampleWidth == 0
  {
    ChunkLengths(data, size);
    var cs := Chunks(data, size);
    if cs != [] {
      var n := |cs|;
      MultipleOfMultiple(n - 1, size, SampleWidth);
      var a, b := |data| / SampleWidth, ((n - 1) * size) / SampleWidth;
      assert |data| == SampleWidth * a;
      assert (n - 1) * size == SampleWidth * b;
      assert |cs[n - 1]| == SampleWidth * (a - b);
    }
  }

  /** The source's constants: 30 s at 16000 Hz, 2 bytes per sample give
      960000-byte windows of whole samples; a 65000000-byte buffer makes 68
      chunks, the last of 680000 bytes. */
  lemma SixtyFiveMillionBytes(data: seq<Byte>)
    requires |data| == 65000000
    ensures ChunkBytes == 960000 && ChunkBytes % SampleWidth == 0
    ensures |Chunks(data, ChunkBytes)| == 68
    ensures |Chunks(data, ChunkBytes)[67]| == 680000
  {
    ChunkCount(data, ChunkBytes);
    DivUnique(65000000 + 960000 - 1, 960000, 68);
    ChunkLengths(data, ChunkBytes);
  }
}
