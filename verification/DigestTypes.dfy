/** Jobs, results and the hash they share (src/digest_executor.rs,
    src/definitions/mso.rs). */
module DigestTypes {
  import opened Fips180

  datatype Option<+T> = None | Some(value: T) {
    function UnwrapOr(default: T): T {
      if Some? then value else default
    }
  }

  datatype Result<+T, +E> = Success(value: T) | Failure(error: E)

  type U64 = n: nat | n < TWO_64

  datatype DigestAlgorithm = SHA256 | SHA384 | SHA512

  datatype DigestJob = DigestJob(
    credentialId: U64, jobId: U64, ordinal: nat, algorithm: DigestAlgorithm, input: seq<Byte>)

  datatype DigestResult = DigestResult(credentialId: U64, jobId: U64, ordinal: nat, digest: seq<Byte>)

  function DigestLength(algorithm: DigestAlgorithm): nat {
    match algorithm
    case SHA256 => 32
    case SHA384 => 48
    case SHA512 => 64
  }

  /** The digest sizes of figure 1 of FIPS 180-4, in bits. */
  lemma DigestSizes()
    ensures 8 * DigestLength(SHA256) == 256 && 8 * DigestLength(SHA384) == 384 && 8 * DigestLength(SHA512) == 512
  {
  }

  /** The hash crate: any function with the right lengths, which for SHA-256 is
      FIPS 180-4's. */
  type Hash = (DigestAlgorithm, seq<Byte>) -> seq<Byte>

  ghost predicate IsDigest(hash: Hash) {
    forall a, m :: |hash(a, m)| == DigestLength(a)
  }

  ghost predicate IsScalarOracle(hash: Hash) {
    IsDigest(hash) && forall m: seq<Byte> {:trigger Sha256(m)} :: |m| < TWO_61 ==> hash(SHA256, m) == Sha256(m)
  }

  function ExecuteDigestJob(hash: Hash, job: DigestJob): DigestResult {
    DigestResult(job.credentialId, job.jobId, job.ordinal, hash(job.algorithm, job.input))
  }

  /** The serial executor: one result per job, in caller order. */
  function SerialExecute(hash: Hash, jobs: seq<DigestJob>): (r: seq<DigestResult>)
    ensures |r| == |jobs|
    ensures forall i :: 0 <= i < |jobs| ==> r[i] == ExecuteDigestJob(hash, jobs[i])
  {
    seq(|jobs|, i requires 0 <= i < |jobs| => ExecuteDigestJob(hash, jobs[i]))
  }
}
