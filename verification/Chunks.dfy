/** Fixed-size chunks of a byte sequence and their repetitions (src/core/common/misc.cpp). */
module Chunks {
  import opened Common

  function ChunkCount(data: Bytes, size: nat): nat {
    if size == 0 then 0 else |data| / size
  }

  function Chunk(data: Bytes, size: nat, i: nat): (c: Bytes)
    requires i < ChunkCount(data, size)
  {
    InBounds(data, size, i);
    data[i * size..i * size + size]
  }

  lemma InBounds(data: Bytes, size: nat, i: nat)
    requires i < ChunkCount(data, size)
    ensures 0 <= i * size <= i * size + size <= |data|
  {
    var q := |data| / size;
    assert (i + 1) * size <= q * size;
  }

  predicate AllDistinct(data: Bytes, size: nat) {
    forall i, j | 0 <= i < j < ChunkCount(data, size) :: Chunk(data, size, i) != Chunk(data, size, j)
  }

  ghost function FirstChunks(data: Bytes, size: nat, n: nat): set<Bytes>
    requires n <= ChunkCount(data, size)
  {
    if n == 0 then {} else FirstChunks(data, size, n - 1) + {Chunk(data, size, n - 1)}
  }

  /** How many of the first `n` chunks repeat an earlier one. */
  ghost function Repeats(data: Bytes, size: nat, n: nat): nat
    requires n <= ChunkCount(data, size)
  {
    if n == 0 then 0
    else Repeats(data, size, n - 1)
         + if Chunk(data, size, n - 1) in FirstChunks(data, size, n - 1) then 1 else 0
  }

  /** The repeats are the chunks minus the distinct chunks. */
  lemma {:induction false} RepeatsAreTheSurplus(data: Bytes, size: nat, n: nat)
    requires n <= ChunkCount(data, size)
    ensures Repeats(data, size, n) == n - |FirstChunks(data, size, n)|
    decreases n
  {
    if n > 0 {
      RepeatsAreTheSurplus(data, size, n - 1);
      var c := Chunk(data, size, n - 1);
      var before := FirstChunks(data, size, n - 1);
      if c in before {
        assert before + {c} == before;
      }
    }
  }

  lemma {:induction false} ChunkIsListed(data: Bytes, size: nat, n: nat, i: nat)
    requires i < n <= ChunkCount(data, size)
    ensures Chunk(data, size, i) in FirstChunks(data, size, n)
    decreases n
  {
    if i < n - 1 { ChunkIsListed(data, size, n - 1, i); }
  }

  /** Some earlier chunk equals `c` when `c` is among the first chunks. */
  lemma {:induction false} ListedIsChunk(data: Bytes, size: nat, n: nat, c: Bytes) returns (i: nat)
    requires n <= ChunkCount(data, size) && c in FirstChunks(data, size, n)
    ensures i < n && Chunk(data, size, i) == c
    decreases n
  {
    if c == Chunk(data, size, n - 1) {
      i := n - 1;
    } else {
      i := ListedIsChunk(data, size, n - 1, c);
    }
  }

  lemma {:induction false} RepeatsGrow(data: Bytes, size: nat, m: nat, n: nat)
    requires m <= n <= ChunkCount(data, size)
    ensures Repeats(data, size, m) <= Repeats(data, size, n)
    decreases n
  {
    if m < n { RepeatsGrow(data, size, m, n - 1); }
  }

  /** There are no repeats exactly when all chunks are pairwise distinct. */
  lemma NoRepeats(data: Bytes, size: nat)
    ensures Repeats(data, size, ChunkCount(data, size)) == 0 <==> AllDistinct(data, size)
  {
    var n := ChunkCount(data, size);
    if AllDistinct(data, size) {
      DistinctHasNoRepeats(data, size, n);
    }
    if Repeats(data, size, n) == 0 {
      forall i, j | 0 <= i < j < n
        ensures Chunk(data, size, i) != Chunk(data, size, j)
      {
        RepeatsGrow(data, size, j + 1, n);
        ChunkIsListed(data, size, j, i);
      }
    }
  }

  lemma {:induction false} DistinctHasNoRepeats(data: Bytes, size: nat, n: nat)
    requires n <= ChunkCount(data, size) && AllDistinct(data, size)
    ensures Repeats(data, size, n) == 0
    decreases n
  {
    if n > 0 {
      DistinctHasNoRepeats(data, size, n - 1);
      var c := Chunk(data, size, n - 1);
      if c in FirstChunks(data, size, n - 1) {
        var i := ListedIsChunk(data, size, n - 1, c);
        assert false;
      }
    }
  }

  /** `count_duplicate_data_chunks`: a cap of zero means no cap. */
  method CountDuplicates(data: Bytes, size: nat, cap: nat) returns (count: nat)
    ensures var all := Repeats(data, size, ChunkCount(data, size));
      count == if cap == 0 then all else Min(all, cap)
  {
    if size == 0 || |data| < size { return 0; }
    var seen: set<Bytes> := {};
    count := 0;
    var chunks := |data| / size;
    var i := 0;
    while i < chunks
      invariant 0 <= i <= chunks
      invariant seen == FirstChunks(data, size, i)
      invariant count == Repeats(data, size, i)
      invariant cap == 0 || count < cap
    {
      var chunk := Chunk(data, size, i);
      if chunk in seen {
        count := count + 1;
        if cap != 0 && count == cap {
          RepeatsGrow(data, size, i + 1, chunks);
          return;
        }
      }
      seen := seen + {chunk};
      i := i + 1;
    }
  }
}
