/** The SIMD executor, the pooled executor's chunk split and the adaptive
    selector (src/digest_executor.rs), against the serial executor. */
module DigestExecutor {
  import opened Fips180
  import opened DigestTypes
  import opened SimdSha256

  datatype DigestExecutionError = DigestExecutionError

  type ExecutionResult = Result<seq<DigestResult>, DigestExecutionError>

  // ---------- The SIMD executor ----------

  predicate InGroup(jobs: seq<DigestJob>, i: nat, blocks: nat)
    requires i < |jobs|
  {
    jobs[i].algorithm == SHA256 && Sha256BlockCount(|jobs[i].input|) == blocks
  }

  /** The indices below `n` of the SHA-256 jobs with one block count, in order. */
  function GroupIndices(jobs: seq<DigestJob>, n: nat, blocks: nat): seq<nat>
    requires n <= |jobs|
  {
    if n == 0 then []
    else GroupIndices(jobs, n - 1, blocks) + (if InGroup(jobs, n - 1, blocks) then [n - 1] else [])
  }

  /** The groups built from the first `n` jobs. */
  ghost predicate Grouped(groups: map<nat, seq<nat>>, jobs: seq<DigestJob>, n: nat)
    requires n <= |jobs|
  {
    forall b: nat :: GroupIndices(jobs, n, b) == if b in groups then groups[b] else []
  }

  ghost predicate IsGroup(jobs: seq<DigestJob>, indices: seq<nat>, blocks: nat) {
    && (forall p :: 0 <= p < |indices| ==> indices[p] < |jobs| && InGroup(jobs, indices[p], blocks))
    && (forall p, q :: 0 <= p < q < |indices| ==> indices[p] < indices[q])
  }

  /** A group holds exactly the SHA-256 jobs of its block count, each once. */
  lemma {:induction false} GroupIndicesExact(jobs: seq<DigestJob>, n: nat, blocks: nat)
    requires n <= |jobs|
    ensures IsGroup(jobs, GroupIndices(jobs, n, blocks), blocks)
    ensures forall i :: i in GroupIndices(jobs, n, blocks) <==> 0 <= i < n && InGroup(jobs, i, blocks)
  {
    hide InGroup;
    if n > 0 {
      GroupIndicesExact(jobs, n - 1, blocks);
      var init, g := GroupIndices(jobs, n - 1, blocks), GroupIndices(jobs, n, blocks);
      forall p | 0 <= p < |init|
        ensures init[p] < n - 1
      {
        assert init[p] in init;
      }
      if InGroup(jobs, n - 1, blocks) {
        assert g == init + [n - 1];
      } else {
        assert g == init;
      }
    }
  }

  /** Slot `i` is filled once its group, if it has one, has been handled. */
  ghost predicate SlotHolds(hash: Hash, jobs: seq<DigestJob>, slot: Option<DigestResult>, i: nat, pending: set<nat>)
    requires i < |jobs|
  {
    slot == if jobs[i].algorithm == SHA256 && Sha256BlockCount(|jobs[i].input|) in pending
            then None else Some(ExecuteDigestJob(hash, jobs[i]))
  }

  lemma OracleIsLane(hash: Hash, m: seq<Byte>)
    requires IsScalarOracle(hash) && |m| < TWO_61
    ensures hash(SHA256, m) == LaneSha256(m)
  {
    LaneSha256IsSha256(m);
    hide Sha256, LaneSha256;
  }

  /** Complete lane groups of one block count, hashed eight at a time. */
  method HashLanes(hash: Hash, jobs: seq<DigestJob>, indices: seq<nat>, blocks: nat)
    returns (ok: bool, digests: seq<Digest>)
    requires IsScalarOracle(hash) && IsGroup(jobs, indices, blocks) && |indices| % LANES == 0
    requires forall i :: 0 <= i < |jobs| ==> |jobs[i].input| < TWO_61
    ensures ok && |digests| == |indices|
    ensures forall p :: 0 <= p < |indices| ==> digests[p] == hash(SHA256, jobs[indices[p]].input)
  {
    hide Sha256BlockCount, LaneSha256, IsScalarOracle;
    var inputs := seq(|indices|, p requires 0 <= p < |indices| => jobs[indices[p]].input);
    var out := new Digest[|indices|](_ => Zeros(32));
    ok := HashManySameBlockCount(inputs, out);
    digests := out[..];
    forall p | 0 <= p < |indices|
      ensures digests[p] == hash(SHA256, jobs[indices[p]].input)
    {
      OracleIsLane(hash, jobs[indices[p]].input);
    }
  }

  /** Slots of `indices` below position `p` hold their results, the later ones
      are empty, and no other slot differs from `before`. */
  ghost predicate FilledUpTo(hash: Hash, jobs: seq<DigestJob>, indices: seq<nat>, p: nat,
                             before: seq<Option<DigestResult>>, now: seq<Option<DigestResult>>)
    requires |before| == |now| == |jobs|
    requires forall q :: 0 <= q < |indices| ==> indices[q] < |jobs|
  {
    && (forall q :: 0 <= q < |indices| ==>
          now[indices[q]] == if q < p then Some(ExecuteDigestJob(hash, jobs[indices[q]])) else None)
    && (forall i :: 0 <= i < |jobs| && i !in indices ==> now[i] == before[i])
  }

  lemma FillOne(hash: Hash, jobs: seq<DigestJob>, indices: seq<nat>, p: nat,
                before: seq<Option<DigestResult>>, now: seq<Option<DigestResult>>)
    requires |before| == |now| == |jobs|
    requires forall q :: 0 <= q < |indices| ==> indices[q] < |jobs|
    requires forall q, r :: 0 <= q < r < |indices| ==> indices[q] < indices[r]
    requires p < |indices| && FilledUpTo(hash, jobs, indices, p, before, now)
    ensures now[indices[p]] == None
    ensures FilledUpTo(hash, jobs, indices, p + 1, before,
                       now[indices[p] := Some(ExecuteDigestJob(hash, jobs[indices[p]]))])
  {
    hide ExecuteDigestJob;
  }

  /** One group: complete lane groups through the SIMD hash, the rest one by
      one. Every slot of the group is empty before it is written. */
  method FillGroup(hash: Hash, jobs: seq<DigestJob>, indices: seq<nat>, blocks: nat,
                   results: array<Option<DigestResult>>) returns (ok: bool)
    requires IsScalarOracle(hash) && results.Length == |jobs|
    requires forall i :: 0 <= i < |jobs| ==> |jobs[i].input| < TWO_61
    requires IsGroup(jobs, indices, blocks)
    requires FilledUpTo(hash, jobs, indices, 0, results[..], results[..])
    modifies results
    ensures ok
    ensures FilledUpTo(hash, jobs, indices, |indices|, old(results[..]), results[..])
  {
    hide Sha256BlockCount, IsScalarOracle;
    var simdJobCount := |indices| / LANES * LANES;
    ghost var before := results[..];
    if simdJobCount != 0 {
      var lanesOk, digests := HashLanes(hash, jobs, indices[..simdJobCount], blocks);
      if !lanesOk {
        return false;
      }
      for p := 0 to simdJobCount
        invariant FilledUpTo(hash, jobs, indices, p, before, results[..])
      {
        var job := jobs[indices[p]];
        assert digests[p] == hash(SHA256, job.input) && InGroup(jobs, indices[p], blocks);
        FillOne(hash, jobs, indices, p, before, results[..]);
        ghost var was := results[..];
        results[indices[p]] := Some(DigestResult(job.credentialId, job.jobId, job.ordinal, digests[p]));
        assert results[..] == was[indices[p] := Some(ExecuteDigestJob(hash, job))];
      }
    }
    for p := simdJobCount to |indices|
      invariant FilledUpTo(hash, jobs, indices, p, before, results[..])
    {
      FillOne(hash, jobs, indices, p, before, results[..]);
      ghost var was := results[..];
      results[indices[p]] := Some(ExecuteDigestJob(hash, jobs[indices[p]]));
      assert results[..] == was[indices[p] := Some(ExecuteDigestJob(hash, jobs[indices[p]]))];
    }
    ok := true;
  }

  /** All the slots' values, or an error when one is empty. */
  method Collect(slots: seq<Option<DigestResult>>) returns (r: ExecutionResult)
    ensures r.Success? <==> forall i :: 0 <= i < |slots| ==> slots[i].Some?
    ensures r.Success? ==> |r.value| == |slots| && forall i :: 0 <= i < |slots| ==> slots[i] == Some(r.value[i])
  {
    var values: seq<DigestResult> := [];
    for i := 0 to |slots|
      invariant |values| == i && forall k :: 0 <= k < i ==> slots[k] == Some(values[k])
    {
      if slots[i].None? {
        return Failure(DigestExecutionError);
      }
      values := values + [slots[i].value];
    }
    r := Success(values);
  }

  ghost predicate AllSlotsHold(hash: Hash, jobs: seq<DigestJob>, slots: seq<Option<DigestResult>>, pending: set<nat>)
    requires |slots| == |jobs|
  {
    forall i :: 0 <= i < |jobs| ==> SlotHolds(hash, jobs, slots[i], i, pending)
  }

  lemma PendingStart(hash: Hash, jobs: seq<DigestJob>, groups: map<nat, seq<nat>>, slots: seq<Option<DigestResult>>)
    requires |slots| == |jobs| && Grouped(groups, jobs, |jobs|)
    requires forall i :: 0 <= i < |jobs| ==>
      slots[i] == if jobs[i].algorithm == SHA256 then None else Some(ExecuteDigestJob(hash, jobs[i]))
    ensures AllSlotsHold(hash, jobs, slots, groups.Keys)
  {
    hide Sha256BlockCount, ExecuteDigestJob, GroupIndices, IsGroup;
    forall i | 0 <= i < |jobs|
      ensures SlotHolds(hash, jobs, slots[i], i, groups.Keys)
    {
      var b := Sha256BlockCount(|jobs[i].input|);
      GroupIndicesExact(jobs, |jobs|, b);
      if jobs[i].algorithm == SHA256 {
        assert i in GroupIndices(jobs, |jobs|, b);
        assert b in groups;
      }
    }
  }

  lemma GroupIsPending(hash: Hash, jobs: seq<DigestJob>, indices: seq<nat>, b: nat,
                       slots: seq<Option<DigestResult>>, pending: set<nat>)
    requires |slots| == |jobs| && IsGroup(jobs, indices, b) && b in pending
    requires AllSlotsHold(hash, jobs, slots, pending)
    ensures FilledUpTo(hash, jobs, indices, 0, slots, slots)
  {
    hide Sha256BlockCount, ExecuteDigestJob;
    forall p | 0 <= p < |indices|
      ensures slots[indices[p]] == None
    {
      assert SlotHolds(hash, jobs, slots[indices[p]], indices[p], pending);
    }
  }

  lemma GroupIsDone(hash: Hash, jobs: seq<DigestJob>, indices: seq<nat>, b: nat,
                    before: seq<Option<DigestResult>>, slots: seq<Option<DigestResult>>, pending: set<nat>)
    requires |slots| == |before| == |jobs| && IsGroup(jobs, indices, b)
    requires forall i :: i in indices <==> 0 <= i < |jobs| && InGroup(jobs, i, b)
    requires AllSlotsHold(hash, jobs, before, pending)
    requires FilledUpTo(hash, jobs, indices, |indices|, before, slots)
    ensures AllSlotsHold(hash, jobs, slots, pending - {b})
  {
    hide Sha256BlockCount, ExecuteDigestJob;
    forall i | 0 <= i < |jobs|
      ensures SlotHolds(hash, jobs, slots[i], i, pending - {b})
    {
      assert SlotHolds(hash, jobs, before[i], i, pending);
      if i in indices {
        var p :| 0 <= p < |indices| && indices[p] == i;
        assert slots[indices[p]] == Some(ExecuteDigestJob(hash, jobs[indices[p]]));
      }
    }
  }

  lemma CollectedIsSerial(hash: Hash, jobs: seq<DigestJob>, slots: seq<Option<DigestResult>>, r: ExecutionResult)
    requires |slots| == |jobs| && AllSlotsHold(hash, jobs, slots, {})
    requires r.Success? <==> forall i :: 0 <= i < |slots| ==> slots[i].Some?
    requires r.Success? ==> |r.value| == |slots| && forall i :: 0 <= i < |slots| ==> slots[i] == Some(r.value[i])
    ensures r == Success(SerialExecute(hash, jobs))
  {
    hide Sha256BlockCount, ExecuteDigestJob;
    forall i | 0 <= i < |jobs|
      ensures slots[i] == Some(ExecuteDigestJob(hash, jobs[i]))
    {
      assert SlotHolds(hash, jobs, slots[i], i, {});
    }
    assert r.value == SerialExecute(hash, jobs);
  }

  /** First pass: group the SHA-256 jobs by block count, hash the others. */
  method GroupJobs(hash: Hash, jobs: seq<DigestJob>, results: array<Option<DigestResult>>)
    returns (groups: map<nat, seq<nat>>)
    requires results.Length == |jobs| && forall i :: 0 <= i < |jobs| ==> results[i] == None
    modifies results
    ensures Grouped(groups, jobs, |jobs|)
    ensures forall i :: 0 <= i < |jobs| ==>
      results[i] == if jobs[i].algorithm == SHA256 then None else Some(ExecuteDigestJob(hash, jobs[i]))
  {
    hide Sha256BlockCount, ExecuteDigestJob;
    groups := map[];
    for index := 0 to |jobs|
      invariant Grouped(groups, jobs, index)
      invariant forall i :: 0 <= i < |jobs| ==>
        results[i] == if i >= index || jobs[i].algorithm == SHA256 then None else Some(ExecuteDigestJob(hash, jobs[i]))
    {
      if jobs[index].algorithm == SHA256 {
        var b := Sha256BlockCount(|jobs[index].input|);
        groups := groups[b := (if b in groups then groups[b] else []) + [index]];
      } else {
        results[index] := Some(ExecuteDigestJob(hash, jobs[index]));
      }
    }
  }

  method ExecuteSimdDigestJobs(hash: Hash, jobs: seq<DigestJob>) returns (r: ExecutionResult)
    requires IsScalarOracle(hash)
    requires forall i :: 0 <= i < |jobs| ==> |jobs[i].input| < TWO_61
    ensures r == Success(SerialExecute(hash, jobs))
  {
    hide Sha256BlockCount, IsScalarOracle, ExecuteDigestJob, GroupIndices, AllSlotsHold, FilledUpTo, InGroup;
    var results := new Option<DigestResult>[|jobs|](_ => None);
    var groups := GroupJobs(hash, jobs, results);
    var pending := groups.Keys;
    PendingStart(hash, jobs, groups, results[..]);
    while pending != {}
      invariant pending <= groups.Keys
      invariant AllSlotsHold(hash, jobs, results[..], pending)
    {
      var b :| b in pending;
      ghost var before := results[..];
      assert groups[b] == GroupIndices(jobs, |jobs|, b);
      GroupIndicesExact(jobs, |jobs|, b);
      GroupIsPending(hash, jobs, groups[b], b, before, pending);
      var ok := FillGroup(hash, jobs, groups[b], b, results);
      if !ok {
        return Failure(DigestExecutionError);
      }
      GroupIsDone(hash, jobs, groups[b], b, before, results[..], pending);
      pending := pending - {b};
    }
    r := Collect(results[..]);
    CollectedIsSerial(hash, jobs, results[..], r);
  }

  // ---------- Chunks ----------

  /** `[T]::chunks`: consecutive pieces of `size`, the last one perhaps shorter. */
  function Chunks<T>(xs: seq<T>, size: nat): (r: seq<seq<T>>)
    requires size > 0
  {
    if |xs| == 0 then [] else if |xs| <= size then [xs] else [xs[..size]] + Chunks(xs[size..], size)
  }

  function Flatten<T>(xss: seq<seq<T>>): seq<T> {
    if |xss| == 0 then [] else xss[0] + Flatten(xss[1..])
  }

  function StaticChunkSize(jobCount: nat, workerCount: nat): nat
    requires workerCount > 0
  {
    jobCount / workerCount + (if jobCount % workerCount != 0 then 1 else 0)
  }

  lemma {:induction false} ChunksFlatten<T>(xs: seq<T>, size: nat)
    requires size > 0
    ensures Flatten(Chunks(xs, size)) == xs
    decreases |xs|
  {
    if 0 < |xs| <= size {
      assert [xs][1..] == [];
    } else if |xs| > size {
      ChunksFlatten(xs[size..], size);
      assert Chunks(xs, size)[1..] == Chunks(xs[size..], size);
      assert xs == xs[..size] + xs[size..];
    }
  }

  /** The number of chunks is the length divided by the size, rounded up: the
      only number whose product with the size lies in this range. */
  lemma {:induction false} ChunksCount<T>(xs: seq<T>, size: nat)
    requires size > 0
    ensures |xs| <= size * |Chunks(xs, size)| < |xs| + size
    decreases |xs|
  {
    if |xs| > size {
      ChunksCount(xs[size..], size);
      var others := |Chunks(xs[size..], size)|;
      assert |Chunks(xs, size)| == others + 1;
      assert size * (others + 1) == size * others + size;
    } else if |xs| > 0 {
      assert size * |Chunks(xs, size)| == size;
    }
  }

  lemma ChunksFit(n: nat, size: nat, workers: nat, count: nat)
    requires n <= size * workers && size * count < n + size
    ensures count <= workers
  {
    if workers < count {
      MultiplesGrow(size, workers, count);
    }
  }

  lemma MultiplesGrow(size: nat, a: nat, b: nat)
    requires a < b
    ensures size * a + size <= size * b
  {
    assert size * b == size * (a + 1) + size * (b - a - 1);
  }

  /** The least chunk size with which as many chunks as workers hold all jobs. */
  ghost predicate IsLeastChunkSize(size: nat, jobCount: nat, workerCount: nat) {
    && jobCount <= size * workerCount
    && forall n: nat :: jobCount <= n * workerCount ==> size <= n
  }

  lemma StaticChunkSizeCovers(jobCount: nat, workerCount: nat)
    requires workerCount > 0
    ensures IsLeastChunkSize(StaticChunkSize(jobCount, workerCount), jobCount, workerCount)
    ensures jobCount > 0 ==> StaticChunkSize(jobCount, workerCount) > 0
  {
    var q := jobCount / workerCount;
    assert jobCount == q * workerCount + jobCount % workerCount;
    assert (q + 1) * workerCount == q * workerCount + workerCount;
    forall n: nat | jobCount <= n * workerCount
      ensures StaticChunkSize(jobCount, workerCount) <= n
    {
      if n < q {
        MultiplesGrow(workerCount, n, q);
      }
    }
  }

  /** `size` elements from `at` on, or all that are left. */
  function Piece<T>(xs: seq<T>, at: nat, size: nat): seq<T>
    requires at <= |xs|
  {
    if |xs| <= at + size then xs[at..] else xs[at..at + size]
  }

  lemma NextStart(size: nat, i: nat)
    ensures (i + 1) * size == i * size + size && i * size >= 0
  {
  }

  /** There is a chunk `i` exactly when elements are left at `i * size`, and it
      is the piece that starts there. */
  lemma {:induction false} ChunkAt<T>(xs: seq<T>, size: nat, i: nat)
    requires size > 0
    ensures i < |Chunks(xs, size)| <==> i * size < |xs|
    ensures i * size < |xs| ==> Chunks(xs, size)[i] == Piece(xs, i * size, size)
    decreases |xs|
  {
    if i > 0 {
      NextStart(size, i - 1);
      if |xs| > size {
        ChunkAt(xs[size..], size, i - 1);
        if i * size < |xs| {
          LaterPiece(xs, (i - 1) * size, size);
        }
      }
    }
  }

  lemma LaterPiece<T>(xs: seq<T>, at: nat, size: nat)
    requires at + size < |xs|
    ensures Piece(xs[size..], at, size) == Piece(xs, at + size, size)
  {
  }

  /** The pool: each chunk hashed in order, the chunks put back in order. */
  function PooledExecute(hash: Hash, jobs: seq<DigestJob>, workerCount: nat): seq<DigestResult>
    requires |jobs| > 0 && workerCount > 0
  {
    StaticChunkSizeCovers(|jobs|, workerCount);
    HashChunks(hash, Chunks(jobs, StaticChunkSize(|jobs|, workerCount)))
  }

  function HashChunks(hash: Hash, chunks: seq<seq<DigestJob>>): seq<DigestResult> {
    if |chunks| == 0 then [] else SerialExecute(hash, chunks[0]) + HashChunks(hash, chunks[1..])
  }

  lemma {:induction false} HashChunksIsSerial(hash: Hash, chunks: seq<seq<DigestJob>>)
    ensures HashChunks(hash, chunks) == SerialExecute(hash, Flatten(chunks))
  {
    if |chunks| > 0 {
      HashChunksIsSerial(hash, chunks[1..]);
    }
  }

  lemma {:induction false} PooledExecuteIsSerial(hash: Hash, jobs: seq<DigestJob>, workerCount: nat)
    requires |jobs| > 0 && workerCount > 0
    ensures PooledExecute(hash, jobs, workerCount) == SerialExecute(hash, jobs)
    ensures |Chunks(jobs, StaticChunkSize(|jobs|, workerCount))| <= workerCount
  {
    StaticChunkSizeCovers(|jobs|, workerCount);
    var size := StaticChunkSize(|jobs|, workerCount);
    ChunksFlatten(jobs, size);
    ChunksCount(jobs, size);
    ChunksFit(|jobs|, size, workerCount, |Chunks(jobs, size)|);
    HashChunksIsSerial(hash, Chunks(jobs, size));
  }

  // ---------- The adaptive selector ----------

  const ADAPTIVE_PARALLEL_MIN_DIGEST_JOBS: nat := 512
  const ADAPTIVE_PARALLEL_MIN_INPUT_BYTES: nat := 2 * 1024 * 1024
  const ADAPTIVE_PARALLEL_MAX_WORKERS: nat := 4
  const U128_MAX: nat := 0xffff_ffff_ffff_ffff_ffff_ffff_ffff_ffff

  datatype AdaptiveDigestExecutionMode = Serial | NativeParallel(workerCount: nat)

  function Min(a: nat, b: nat): nat {
    if a < b then a else b
  }

  function SaturatingAdd(a: nat, b: nat): nat {
    Min(a + b, U128_MAX)
  }

  /** The selector's byte count: a left fold that stops growing at 2^128 - 1. */
  function SaturatingBytes(jobs: seq<DigestJob>): nat {
    if |jobs| == 0 then 0
    else SaturatingAdd(SaturatingBytes(jobs[..|jobs| - 1]), |jobs[|jobs| - 1].input|)
  }

  function LargestChunkBytes(chunks: seq<seq<DigestJob>>): (r: nat)
    ensures |chunks| > 0 ==> exists i :: 0 <= i < |chunks| && r == SaturatingBytes(chunks[i])
    ensures forall i :: 0 <= i < |chunks| ==> SaturatingBytes(chunks[i]) <= r
  {
    if |chunks| == 0 then 0
    else
      var rest := LargestChunkBytes(chunks[1..]);
      if SaturatingBytes(chunks[0]) >= rest then SaturatingBytes(chunks[0]) else rest
  }

  function SelectAdaptiveDigestExecutionMode(jobs: seq<DigestJob>, availableParallelism: nat)
    : AdaptiveDigestExecutionMode
  {
    if |jobs| < ADAPTIVE_PARALLEL_MIN_DIGEST_JOBS then Serial
    else
      var totalInputBytes := SaturatingBytes(jobs);
      if totalInputBytes < ADAPTIVE_PARALLEL_MIN_INPUT_BYTES then Serial
      else
        var workerCount := Min(Min(availableParallelism, ADAPTIVE_PARALLEL_MAX_WORKERS), |jobs|);
        if workerCount < 2 then Serial
        else
          StaticChunkSizeCovers(|jobs|, workerCount);
          var largestChunkBytes := LargestChunkBytes(Chunks(jobs, StaticChunkSize(|jobs|, workerCount)));
          var halfTotalRoundedUp := totalInputBytes / 2 + totalInputBytes % 2;
          if largestChunkBytes > halfTotalRoundedUp then Serial
          else NativeParallel(workerCount)
  }

  /** The true number of input bytes. */
  function TotalBytes(jobs: seq<DigestJob>): nat {
    if |jobs| == 0 then 0 else |jobs[0].input| + TotalBytes(jobs[1..])
  }

  lemma {:induction false} TotalBytesAppend(x: seq<DigestJob>, y: seq<DigestJob>)
    ensures TotalBytes(x + y) == TotalBytes(x) + TotalBytes(y)
  {
    if |x| == 0 {
      assert x + y == y;
    } else {
      assert (x + y)[1..] == x[1..] + y;
      TotalBytesAppend(x[1..], y);
    }
  }

  /** What a 64-bit address space can hold: fewer than 2^64 jobs of fewer than
      2^64 bytes. */
  predicate Addressable(jobs: seq<DigestJob>) {
    |jobs| < TWO_64 && forall i :: 0 <= i < |jobs| ==> |jobs[i].input| < TWO_64
  }

  /** The saturating sums never saturate. */
  lemma {:induction false} SaturatingBytesExact(jobs: seq<DigestJob>)
    requires Addressable(jobs)
    ensures SaturatingBytes(jobs) == TotalBytes(jobs) <= |jobs| * (TWO_64 - 1)
  {
    if |jobs| > 0 {
      var init, last := jobs[..|jobs| - 1], jobs[|jobs| - 1];
      SaturatingBytesExact(init);
      assert jobs == init + [last];
      TotalBytesAppend(init, [last]);
      assert TotalBytes([last]) == |last.input|;
      assert |jobs| * (TWO_64 - 1) == |init| * (TWO_64 - 1) + (TWO_64 - 1);
      assert |jobs| * (TWO_64 - 1) <= (TWO_64 - 1) * (TWO_64 - 1) <= U128_MAX;
    }
  }

  lemma {:induction false} ChunksAddressable(jobs: seq<DigestJob>, size: nat)
    requires size > 0 && Addressable(jobs)
    ensures forall i :: 0 <= i < |Chunks(jobs, size)| ==> Addressable(Chunks(jobs, size)[i])
    decreases |jobs|
  {
    if |jobs| > size {
      ChunksAddressable(jobs[size..], size);
    }
  }

  /** No chunk holds more than half the bytes, rounded up. */
  ghost predicate Balanced(chunks: seq<seq<DigestJob>>, totalBytes: nat) {
    forall i :: 0 <= i < |chunks| ==> 2 * TotalBytes(chunks[i]) <= totalBytes + 1
  }

  /** No piece of `size` jobs, from any multiple of `size` on, does. */
  ghost predicate PiecesBalanced(jobs: seq<DigestJob>, size: nat, totalBytes: nat) {
    forall i: nat :: i * size < |jobs| ==> 2 * TotalBytes(Piece(jobs, i * size, size)) <= totalBytes + 1
  }

  lemma {:induction false} BalancedIsPieces(jobs: seq<DigestJob>, size: nat, totalBytes: nat)
    requires size > 0
    ensures Balanced(Chunks(jobs, size), totalBytes) <==> PiecesBalanced(jobs, size, totalBytes)
  {
    hide Chunks, TotalBytes, Piece;
    var chunks := Chunks(jobs, size);
    forall i: nat
      ensures i < |chunks| <==> i * size < |jobs|
      ensures i * size < |jobs| ==> chunks[i] == Piece(jobs, i * size, size)
    {
      ChunkAt(jobs, size, i);
    }
  }

  /** Native execution is chosen exactly for qualified, balanced workloads, with
      as many workers as there are processors, but at most four; everything else
      is executed serially. `size` is the chunk size of that many workers. */
  lemma {:induction false} SelectorExact(jobs: seq<DigestJob>, availableParallelism: nat, workerCount: nat, size: nat)
    requires Addressable(jobs) && IsLeastChunkSize(size, |jobs|, workerCount)
    ensures var mode := SelectAdaptiveDigestExecutionMode(jobs, availableParallelism);
      && (mode == NativeParallel(workerCount) <==>
            && |jobs| >= 512
            && TotalBytes(jobs) >= 0x20_0000
            && workerCount == (if availableParallelism < 4 then availableParallelism else 4)
            && workerCount >= 2
            && PiecesBalanced(jobs, size, TotalBytes(jobs)))
      && (mode.NativeParallel? ==> 2 <= mode.workerCount <= 4)
  {
    SaturatingBytesExact(jobs);
    var w := Min(Min(availableParallelism, 4), |jobs|);
    if |jobs| >= 512 && w >= 2 {
      StaticChunkSizeCovers(|jobs|, w);
      var chunkSize := StaticChunkSize(|jobs|, w);
      var chunks := Chunks(jobs, chunkSize);
      ChunksAddressable(jobs, chunkSize);
      forall i | 0 <= i < |chunks|
        ensures SaturatingBytes(chunks[i]) == TotalBytes(chunks[i])
      {
        SaturatingBytesExact(chunks[i]);
      }
      LargestIsBalanced(chunks, TotalBytes(jobs));
      BalancedIsPieces(jobs, chunkSize, TotalBytes(jobs));
      if w == workerCount {
        assert chunkSize == size;
      }
    }
    hide Chunks, StaticChunkSize, PiecesBalanced, IsLeastChunkSize;
  }

  lemma {:induction false} LargestIsBalanced(chunks: seq<seq<DigestJob>>, total: nat)
    requires forall i :: 0 <= i < |chunks| ==> SaturatingBytes(chunks[i]) == TotalBytes(chunks[i])
    ensures Balanced(chunks, total) <==> LargestChunkBytes(chunks) <= total / 2 + total % 2
  {
    hide TotalBytes, SaturatingBytes;
    var largest := LargestChunkBytes(chunks);
    if |chunks| > 0 {
      var k :| 0 <= k < |chunks| && largest == SaturatingBytes(chunks[k]);
      assert Balanced(chunks, total) ==> 2 * TotalBytes(chunks[k]) <= total + 1;
    }
  }

  /** With two workers there are two chunks, and their sizes differ by at most
      one byte. */
  lemma {:induction false} TwoChunksDifferByAtMostOne(jobs: seq<DigestJob>, availableParallelism: nat)
    requires Addressable(jobs)
    requires SelectAdaptiveDigestExecutionMode(jobs, availableParallelism) == NativeParallel(2)
    ensures var chunks := Chunks(jobs, StaticChunkSize(|jobs|, 2));
      |chunks| == 2 && -1 <= TotalBytes(chunks[0]) - TotalBytes(chunks[1]) <= 1
  {
    StaticChunkSizeCovers(|jobs|, 2);
    var size := StaticChunkSize(|jobs|, 2);
    SelectorExact(jobs, availableParallelism, 2, size);
    BalancedIsPieces(jobs, size, TotalBytes(jobs));
    var chunks := Chunks(jobs, size);
    assert size < |jobs| <= 2 * size;
    assert chunks == [jobs[..size], jobs[size..]];
    TotalBytesAppend(jobs[..size], jobs[size..]);
    assert jobs == jobs[..size] + jobs[size..];
    assert 2 * TotalBytes(chunks[0]) <= TotalBytes(jobs) + 1 && 2 * TotalBytes(chunks[1]) <= TotalBytes(jobs) + 1;
  }
}
