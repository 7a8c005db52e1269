/**
 The cutting of a file into the parts of a multipart upload (ct_get_chunksize
 in src/lhsmtool_s3.c, constants from src/ct_common.c).
 */
module Chunks {
  const CHUNK_SIZE: nat := 16 * 1024 * 1024
  const CHUNK_SIZE_MAX: nat := 5 * 1024 * 1024 * 1024
  const MAX_OBJ_SIZE_LEVEL: nat := 256 * 1024 * 1024
  const MAX_FILE_SIZE: nat := 5 * 1024 * 1024 * 1024 * 1024
  const MAX_PARTS: nat := 10000
  const WORD: nat := 0x1_0000_0000_0000_0000

  function Parts(size: nat, chunk: nat): nat
    requires chunk > 0
  {
    (size + chunk - 1) / chunk
  }

  /** The body of the loop. */
  function Grow(chunk: nat): nat {
    var doubled := if chunk < CHUNK_SIZE_MAX then chunk * 2 else chunk;
    if doubled > CHUNK_SIZE_MAX then CHUNK_SIZE_MAX else doubled
  }

  /** The chunk size after k rounds. */
  function ChunkAt(k: nat): (c: nat)
    ensures CHUNK_SIZE <= c <= CHUNK_SIZE_MAX
  {
    if k == 0 then CHUNK_SIZE else Grow(ChunkAt(k - 1))
  }

  predicate Fits(size: nat, k: nat) {
    Parts(size, ChunkAt(k)) <= MAX_PARTS
  }

  lemma PartsBounds(size: nat, chunk: nat)
    requires chunk > 0
    ensures size > 0 ==> Parts(size, chunk) > 0 && (Parts(size, chunk) - 1) * chunk < size
    ensures size <= Parts(size, chunk) * chunk
  {
  }

  lemma FitsIff(size: nat, chunk: nat, parts: nat)
    requires chunk > 0
    ensures Parts(size, chunk) <= parts <==> size <= parts * chunk
  {
    var n := Parts(size, chunk);
    PartsBounds(size, chunk);
    if n <= parts {
      assert n * chunk <= parts * chunk;
    } else {
      assert (n - 1) * chunk >= parts * chunk;
    }
  }

  /** The test of the loop as the machine computes it, in size_t. */
  function MachineParts(size: nat, chunk: nat): nat
    requires chunk > 0
  {
    (size + chunk - 1) % WORD / chunk
  }

  predicate MachineFits(size: nat, k: nat) {
    MachineParts(size, ChunkAt(k)) <= MAX_PARTS
  }

  /** The sum wraps only for sizes near the end of the word, and then the number
      of parts comes out as 0. */
  lemma MachinePartsAre(size: nat, chunk: nat)
    requires 0 < chunk <= CHUNK_SIZE_MAX && size < WORD
    ensures MachineParts(size, chunk) == if size <= WORD - chunk then Parts(size, chunk) else 0
  {
    var sum := size + chunk - 1;
    Wrapped(sum);
    if sum >= WORD {
      SmallQuotient(sum - WORD, chunk);
    }
  }

  lemma Wrapped(n: nat)
    requires n < 2 * WORD
    ensures n % WORD == if n < WORD then n else n - WORD
  {
  }

  lemma SmallQuotient(n: nat, d: nat)
    requires n < d
    ensures n / d == 0
  {
  }

  /** The loop ends exactly for sizes that 10000 parts of the largest chunk can
      hold, and for those so near the end of the word that the sum wraps; for
      any other it goes round for ever. A file is shorter than 2^63 bytes. */
  lemma LoopEndsIff(size: nat)
    requires size < WORD
    ensures (exists k: nat :: MachineFits(size, k)) <==>
            size <= MAX_PARTS * CHUNK_SIZE_MAX || size > WORD - CHUNK_SIZE_MAX
    ensures size < 0x8000_0000_0000_0000 ==>
              ((exists k: nat :: MachineFits(size, k)) <==> size <= MAX_PARTS * CHUNK_SIZE_MAX)
  {
    if size <= MAX_PARTS * CHUNK_SIZE_MAX || size > WORD - CHUNK_SIZE_MAX {
      LastChunk();
      FitsIff(size, ChunkAt(9), MAX_PARTS);
      MachinePartsAre(size, ChunkAt(9));
      assert MachineFits(size, 9);
    } else {
      forall k: nat
        ensures !MachineFits(size, k)
      {
        FitsIff(size, ChunkAt(k), MAX_PARTS);
        MachinePartsAre(size, ChunkAt(k));
        assert MAX_PARTS * ChunkAt(k) <= MAX_PARTS * CHUNK_SIZE_MAX;
      }
    }
  }

  /** The chunk sizes up to the one at which the growth stops. */
  lemma LastChunk()
    ensures ChunkAt(5) == 512 * 1024 * 1024 && ChunkAt(6) == 1024 * 1024 * 1024
    ensures ChunkAt(9) == CHUNK_SIZE_MAX
    ensures forall k :: 0 <= k <= 6 ==> ChunkAt(k) == CHUNK_SIZE * Pow2(k)
  {
    assert ChunkAt(1) == 2 * CHUNK_SIZE && ChunkAt(2) == 4 * CHUNK_SIZE;
    assert ChunkAt(3) == 8 * CHUNK_SIZE && ChunkAt(4) == 16 * CHUNK_SIZE;
    assert ChunkAt(5) == 32 * CHUNK_SIZE && ChunkAt(6) == 64 * CHUNK_SIZE;
    assert ChunkAt(7) == 128 * CHUNK_SIZE && ChunkAt(8) == 256 * CHUNK_SIZE;
    assert Pow2(1) == 2 && Pow2(2) == 4 && Pow2(3) == 8 && Pow2(4) == 16 && Pow2(5) == 32 && Pow2(6) == 64;
  }

  function Pow2(k: nat): nat {
    if k == 0 then 1 else 2 * Pow2(k - 1)
  }

  lemma {:induction false} ChunksGrow(j: nat, k: nat)
    requires j <= k
    ensures ChunkAt(j) <= ChunkAt(k)
    decreases k - j
  {
    if j < k {
      ChunksGrow(j, k - 1);
    }
  }

  /** ct_get_chunksize. The chunk is the first of the sequence that needs at
      most 10000 parts. */
  method GetChunkSize(size: nat) returns (chunk: nat, parts: nat, ghost k: nat)
    requires size <= MAX_PARTS * CHUNK_SIZE_MAX
    ensures chunk == ChunkAt(k) && parts == Parts(size, chunk)
    ensures Fits(size, k) && forall j :: 0 <= j < k ==> !Fits(size, j)
    ensures size > 0 ==> 0 < parts && (parts - 1) * chunk < size
    ensures parts <= MAX_PARTS && size <= parts * chunk
  {
    chunk, k := CHUNK_SIZE, 0;
    MachinePartsAre(size, chunk);
    parts := (size + chunk - 1) % WORD / chunk;
    while parts > MAX_PARTS
      invariant chunk == ChunkAt(k) && parts == Parts(size, chunk)
      invariant forall j :: 0 <= j < k ==> !Fits(size, j)
      decreases CHUNK_SIZE_MAX - chunk
    {
      FitsIff(size, chunk, MAX_PARTS);
      if chunk < CHUNK_SIZE_MAX {
        chunk := chunk * 2;
      }
      if chunk > CHUNK_SIZE_MAX {
        chunk := CHUNK_SIZE_MAX;
      }
      MachinePartsAre(size, chunk);
      parts := (size + chunk - 1) % WORD / chunk;
      k := k + 1;
    }
    PartsBounds(size, chunk);
  }

  /** The number of rounds, counted from k. */
  function Rounds(size: nat, k: nat): (r: nat)
    requires k <= 9
    ensures k <= r <= 9
    ensures forall j :: k <= j < r ==> !Fits(size, j)
    ensures r < 9 ==> Fits(size, r)
    decreases 9 - k
  {
    if k == 9 || Fits(size, k) then k else Rounds(size, k + 1)
  }

  /** The chunk for a file of this size. */
  function ChunkFor(size: nat): nat {
    ChunkAt(Rounds(size, 0))
  }

  lemma ChunkForIs(size: nat, k: nat)
    requires size <= MAX_PARTS * CHUNK_SIZE_MAX && Fits(size, k) && forall j :: 0 <= j < k ==> !Fits(size, j)
    ensures ChunkAt(k) == ChunkFor(size)
  {
    var r := Rounds(size, 0);
    LastChunk();
    FitsIff(size, ChunkAt(9), MAX_PARTS);
    assert Fits(size, 9) && Fits(size, r);
    assert r <= k && k <= r;
  }

  lemma LeastFitting(size: nat, k: nat, j: nat)
    requires forall i :: 0 <= i < k ==> !Fits(size, i)
    requires size <= MAX_PARTS * ChunkAt(j)
    ensures k <= j && ChunkAt(k) <= ChunkAt(j)
  {
    FitsIff(size, ChunkAt(j), MAX_PARTS);
    assert Fits(size, j);
    ChunksGrow(k, j);
  }

  /** For the sizes the copytool accepts the chunk is 16 MiB times a power of
      two, the least that fits, and at most 1 GiB: a part length fits an int,
      and no product or sum of the loop passes 64 bits. */
  lemma AcceptedChunk(size: nat, k: nat)
    requires size <= MAX_FILE_SIZE
    requires Fits(size, k) && forall j :: 0 <= j < k ==> !Fits(size, j)
    ensures k <= 6 && ChunkAt(k) == CHUNK_SIZE * Pow2(k) && ChunkAt(k) <= 1024 * 1024 * 1024 < 0x8000_0000
    ensures forall j: nat :: j <= 6 && size <= MAX_PARTS * (CHUNK_SIZE * Pow2(j)) ==> ChunkAt(k) <= CHUNK_SIZE * Pow2(j)
    ensures Parts(size, ChunkAt(k)) * ChunkAt(k) < 0x1_0000_0000_0000_0000
    ensures size + ChunkAt(k) - 1 < 0x1_0000_0000_0000_0000
  {
    LastChunk();
    LeastFitting(size, k, 6);
    ProductsFit(size, ChunkAt(k));
    forall j: nat | j <= 6 && size <= MAX_PARTS * (CHUNK_SIZE * Pow2(j))
      ensures ChunkAt(k) <= CHUNK_SIZE * Pow2(j)
    {
      LeastFitting(size, k, j);
    }
  }

  lemma ProductsFit(size: nat, chunk: nat)
    requires 0 < chunk <= 1024 * 1024 * 1024 && size <= MAX_FILE_SIZE
    ensures Parts(size, chunk) * chunk < 0x1_0000_0000_0000_0000
  {
    PartsBounds(size, chunk);
    if size > 0 {
      assert (Parts(size, chunk) - 1) * chunk < size;
    }
  }

  // ---- parts of a file -----------------------------------------------------

  /** The length of part number `n` (from 1); 0 behind the end of the file. */
  function PartLength(size: nat, chunk: nat, n: nat): nat {
    if n == 0 || (n - 1) * chunk >= size then 0
    else if size - (n - 1) * chunk > chunk then chunk else size - (n - 1) * chunk
  }

  /** The bytes part number `n` (from 1) has to carry. */
  function PartOf(file: seq<char>, chunk: nat, n: nat): (part: seq<char>)
    requires 0 < n && (n - 1) * chunk <= |file|
    ensures |part| == PartLength(|file|, chunk, n)
  {
    var from := (n - 1) * chunk;
    file[from..from + if |file| - from > chunk then chunk else |file| - from]
  }
}
