/**
 * The chunk arithmetic of `UploadAsync`: how many chunks a file of `len` bytes is cut
 * into for a negotiated maximum chunk size `c`, and which byte range each chunk covers.
 * Ranges are half-open: chunk i holds the bytes at positions [RangeStart, RangeEnd).
 */
module Chunking {

  /** `Math.Ceiling((double) len / c)`, as an integer ceiling */
  function ChunkCount(len: nat, c: int): (n: nat)
    requires c > 0
    ensures n * c >= len
    ensures len > 0 ==> n > 0 && (n - 1) * c < len
    ensures len == 0 ==> n == 0
  {
    var n := (len + c - 1) / c;
    assert n * c + (len + c - 1) % c == len + c - 1;
    assert (n - 1) * c == n * c - c;
    n
  }

  function RangeStart(c: int, i: nat): int {
    i * c
  }

  /** `isLastChunk = rangeEnd > uploadFileLength`: the STRICT comparison of the source */
  predicate IsLastChunk(len: nat, c: int, i: nat) {
    (i + 1) * c > len
  }

  function RangeEnd(len: nat, c: int, i: nat): int {
    if IsLastChunk(len, c, i) then len else (i + 1) * c
  }

  lemma MulMonotone(a: int, b: int, c: int)
    requires a <= b && c > 0
    ensures a * c <= b * c
  {
    assert b * c - a * c == (b - a) * c;
  }

  /** Every chunk the loop visits is a non-empty range inside the file; a chunk that is not
      flagged last holds exactly `c` bytes, the one flagged last holds the rest of the file. */
  lemma ChunkBounds(len: nat, c: int, i: nat)
    requires c > 0 && i < ChunkCount(len, c)
    ensures 0 <= RangeStart(c, i) < RangeEnd(len, c, i) <= len
    ensures RangeEnd(len, c, i) - RangeStart(c, i) <= c
    ensures !IsLastChunk(len, c, i) ==> RangeEnd(len, c, i) - RangeStart(c, i) == c
    ensures IsLastChunk(len, c, i) ==> RangeEnd(len, c, i) == len
  {
    var n := ChunkCount(len, c);
    MulMonotone(i, n - 1, c);
    assert (i + 1) * c == i * c + c;
  }

  /** Consecutive chunks meet: chunk i ends where chunk i + 1 starts, and only the final
      chunk can be flagged last. */
  lemma ChunksContiguous(len: nat, c: int, i: nat)
    requires c > 0 && i + 1 < ChunkCount(len, c)
    ensures !IsLastChunk(len, c, i)
    ensures RangeEnd(len, c, i) == RangeStart(c, i + 1)
  {
    ChunkBounds(len, c, i + 1);
  }

  /** The final chunk ends at the end of the file, whatever its flag says. */
  lemma FinalChunkEndsFile(len: nat, c: int)
    requires c > 0 && len > 0
    ensures RangeEnd(len, c, ChunkCount(len, c) - 1) == len
  {
    var n := ChunkCount(len, c);
    assert n * c == (n - 1 + 1) * c;
  }

  /** A chunk is flagged last exactly when it is the final one and the file length is not a
      multiple of `c`. When `c` divides the length, no chunk is ever flagged last. */
  lemma LastFlag(len: nat, c: int, i: nat)
    requires c > 0 && i < ChunkCount(len, c)
    ensures IsLastChunk(len, c, i) <==> i == ChunkCount(len, c) - 1 && len % c != 0
  {
    var n := ChunkCount(len, c);
    if i + 1 < n {
      ChunksContiguous(len, c, i);
    } else if len % c == 0 {
      DivModUnique(len + c - 1, c, len / c, c - 1);
    } else if n * c == len {
      DivModUnique(len, c, n, 0);
    }
  }

  lemma DivModUnique(x: int, c: int, q: int, r: int)
    requires c > 0 && 0 <= r < c && x == q * c + r
    ensures q == x / c && r == x % c
  {
    var q', r' := x / c, x % c;
    assert (q - q') * c == r' - r;
    if q < q' {
      MulMonotone(1, q' - q, c);
    } else if q' < q {
      MulMonotone(1, q - q', c);
    }
  }

  /** A length that is a multiple of c splits into exactly len / c chunks. */
  lemma ExactChunkCount(len: nat, c: int)
    requires c > 0 && len % c == 0
    ensures ChunkCount(len, c) == len / c
  {
    DivModUnique(len + c - 1, c, len / c, c - 1);
  }

  /** Disjointness: a later chunk starts no earlier than an earlier chunk ends. */
  lemma ChunksDisjoint(len: nat, c: int, i: nat, j: nat)
    requires c > 0 && i < j < ChunkCount(len, c)
    ensures RangeEnd(len, c, i) <= RangeStart(c, j)
  {
    ChunksContiguous(len, c, i);
    MulMonotone(i + 1, j, c);
  }

  /** Coverage: byte p of the file lies in chunk p / c, which the loop visits. */
  lemma ChunkOfByte(len: nat, c: int, p: nat)
    requires c > 0 && p < len
    ensures p / c < ChunkCount(len, c)
    ensures RangeStart(c, p / c) <= p < RangeEnd(len, c, p / c)
  {
    var n, q := ChunkCount(len, c), p / c;
    assert p == q * c + p % c;
    assert (q + 1) * c == q * c + c;
    if n <= q {
      MulMonotone(n, q, c);
    }
  }

  /** The bytes of chunk i: the file slice [RangeStart, RangeEnd) */
  function ChunkBytes<B>(file: seq<B>, c: int, i: nat): (chunk: seq<B>)
    requires c > 0 && i < ChunkCount(|file|, c)
    ensures 0 < |chunk| <= c
  {
    ChunkBounds(|file|, c, i);
    file[RangeStart(c, i)..RangeEnd(|file|, c, i)]
  }

  /** The chunks from index i on, laid end to end */
  function Concatenated<B>(file: seq<B>, c: int, i: nat): seq<B>
    requires c > 0
    decreases ChunkCount(|file|, c) - i
  {
    if i >= ChunkCount(|file|, c) then [] else ChunkBytes(file, c, i) + Concatenated(file, c, i + 1)
  }

  /** Laid end to end, the chunks from index i on are exactly the rest of the file. */
  lemma {:induction false} ConcatenatedSuffix<B>(file: seq<B>, c: int, i: nat)
    requires c > 0 && i < ChunkCount(|file|, c)
    ensures Concatenated(file, c, i) == file[RangeStart(c, i)..]
    decreases ChunkCount(|file|, c) - i
  {
    var n := ChunkCount(|file|, c);
    ChunkBounds(|file|, c, i);
    if i + 1 < n {
      ConcatenatedSuffix(file, c, i + 1);
      ChunksContiguous(|file|, c, i);
    } else {
      FinalChunkEndsFile(|file|, c);
    }
  }

  /** All chunks laid end to end give back the whole file: no gap, no overlap. */
  lemma Reassembled<B>(file: seq<B>, c: int)
    requires c > 0
    ensures Concatenated(file, c, 0) == file
  {
    if |file| > 0 {
      ConcatenatedSuffix(file, c, 0);
    }
  }
}
