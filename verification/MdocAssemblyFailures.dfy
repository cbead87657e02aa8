/** Where assembly stops and with which error (src/issuance/mdoc.rs): what comes
    before is assembled, and the error says what is wrong there. */
module MdocAssemblyFailures {
  import opened Fips180
  import opened DigestTypes
  import opened MdocDigestPlan
  import opened MdocAssembly
  import opened Distinctness

  /** The checks of a job, in order: its credential, its identity, its result,
      the result's ordinal and the digest's length. */
  predicate JobIsWrong(credentialId: U64, job: DigestJob, left: Available, taken: Taken, error: AssemblyError) {
    var identity := JobIdentity(job);
    var own := job.credentialId == credentialId;
    var unseen := own && identity !in taken;
    var answered := unseen && identity in left;
    var same := answered && left[identity].ordinal == job.ordinal;
    || (error == InconsistentCredential && !own)
    || (error == DuplicateJob && own && !unseen)
    || (error == OmittedResult && unseen && !answered)
    || (error == ChangedMetadata && answered && !same)
    || (error == InvalidLength && same && |left[identity].digest| != DigestLength(job.algorithm))
  }

  lemma {:induction false} JobsFailAt(credentialId: U64, jobs: seq<DigestJob>, available: Available, taken: Taken)
    returns (i: nat)
    requires TakeJobs(credentialId, jobs, available, taken).Failure?
    ensures i < |jobs| && TakeJobs(credentialId, jobs[..i], available, taken).Success?
    ensures var (left, before) := TakeJobs(credentialId, jobs[..i], available, taken).value;
      JobIsWrong(credentialId, jobs[i], left, before, TakeJobs(credentialId, jobs, available, taken).error)
  {
    i := 0;
    assert TakeJobs(credentialId, jobs[..0], available, taken) == Success((available, taken));
    var job, identity := jobs[0], JobIdentity(jobs[0]);
    if && job.credentialId == credentialId && identity !in taken && identity in available
       && available[identity].ordinal == job.ordinal
       && |available[identity].digest| == DigestLength(job.algorithm) {
      var n := JobsFailAt(credentialId, jobs[1..], available - {identity},
                          taken[identity := available[identity].digest]);
      i := n + 1;
      assert jobs[..i][1..] == jobs[1..][..n];
    }
  }

  /** The checks of a planned digest, in order: its credential, its job, its
      digest id in the namespace. */
  predicate DigestIsWrong(credentialId: U64, digest: PlannedDigest, left: Taken, ids: DigestIds,
                          error: AssemblyError)
  {
    var own := digest.credentialId == credentialId;
    var known := own && DigestIdentity(digest) in left;
    || (error == InconsistentCredential && !own)
    || (error == UnknownJob && own && !known)
    || (error == DuplicateDigestId && known && digest.digestId in ids)
  }

  lemma {:induction false} DigestsFailAt(credentialId: U64, digests: seq<PlannedDigest>, taken: Taken, ids: DigestIds)
    returns (i: nat)
    requires FillNamespace(credentialId, digests, taken, ids).Failure?
    ensures i < |digests| && FillNamespace(credentialId, digests[..i], taken, ids).Success?
    ensures var (left, before) := FillNamespace(credentialId, digests[..i], taken, ids).value;
      DigestIsWrong(credentialId, digests[i], left, before, FillNamespace(credentialId, digests, taken, ids).error)
  {
    i := 0;
    assert FillNamespace(credentialId, digests[..0], taken, ids) == Success((taken, ids));
    var digest, identity := digests[0], DigestIdentity(digests[0]);
    if digest.credentialId == credentialId && identity in taken && digest.digestId !in ids {
      var n := DigestsFailAt(credentialId, digests[1..], taken - {identity}, ids[digest.digestId := taken[identity]]);
      i := n + 1;
      assert digests[..i][1..] == digests[1..][..n];
    }
  }

  /** A namespace fails with its digests' error, or because its name is taken. */
  lemma {:induction false} NamespacesFailAt(credentialId: U64, namespaces: seq<PlannedNamespace>, taken: Taken,
                                            filled: NamespaceDigests)
    returns (k: nat)
    requires FillNamespaces(credentialId, namespaces, taken, filled).Failure?
    ensures k < |namespaces| && FillNamespaces(credentialId, namespaces[..k], taken, filled).Success?
    ensures var (left, before) := FillNamespaces(credentialId, namespaces[..k], taken, filled).value;
      var error := FillNamespaces(credentialId, namespaces, taken, filled).error;
      match FillNamespace(credentialId, namespaces[k].digests, left, map[])
      case Failure(digestError) => error == digestError
      case Success(_) => namespaces[k].name in before && error == DuplicateNamespace
  {
    hide FillNamespace;
    k := 0;
    assert FillNamespaces(credentialId, namespaces[..0], taken, filled) == Success((taken, filled));
    var first := FillNamespace(credentialId, namespaces[0].digests, taken, map[]);
    if first.Success? && namespaces[0].name !in filled {
      var n := NamespacesFailAt(credentialId, namespaces[1..], first.value.0,
                                filled[namespaces[0].name := first.value.1]);
      k := n + 1;
      assert namespaces[..k][1..] == namespaces[1..][..n];
    }
  }

  /** Results left over after all plans, or the plan at which assembly stops: its
      credential was seen before, or it fails itself, at a job, in a namespace, or
      because a job has no digest. */
  predicate PlanIsWrong(plan: DigestPlan, left: Available, seen: set<U64>, error: AssemblyError) {
    if plan.credentialId in seen then error == DuplicateCredential
    else
      match TakeJobs(plan.credentialId, plan.jobs, left, map[])
      case Failure(jobError) => error == jobError
      case Success((_, taken)) =>
        match FillNamespaces(plan.credentialId, plan.namespaces, taken, map[])
        case Failure(namespaceError) => error == namespaceError
        case Success((unused, _)) => unused != map[] && error == UnreferencedJob
  }

  /** What is left of the results after the plans, one by one, if all assemble. */
  function LeftAfter(plans: seq<DigestPlan>, available: Available): Option<Available> {
    if |plans| == 0 then Some(available)
    else
      match AssemblePlan(plans[0], available)
      case Failure(_) => None
      case Success((others, _)) => LeftAfter(plans[1..], others)
  }

  ghost function CredentialsOf(plans: seq<DigestPlan>): set<U64> {
    set k | 0 <= k < |plans| :: plans[k].credentialId
  }

  lemma CredentialsFirst(plans: seq<DigestPlan>, n: nat)
    requires n < |plans|
    ensures CredentialsOf(plans[..n + 1]) == {plans[0].credentialId} + CredentialsOf(plans[1..][..n])
  {
    var head, tail := plans[..n + 1], plans[1..][..n];
    assert forall i :: 0 < i <= n ==> head[i] == tail[i - 1];
    assert forall i :: 0 <= i < n ==> tail[i] == head[i + 1];
  }

  lemma {:induction false} PlansFailAt(plans: seq<DigestPlan>, available: Available, seen: set<U64>,
                                       batches: seq<NamespaceDigests>)
    returns (k: nat)
    requires AssemblePlans(plans, available, seen, batches).Failure?
    ensures k <= |plans| && LeftAfter(plans[..k], available).Some?
    ensures var left := LeftAfter(plans[..k], available).value;
      var error := AssemblePlans(plans, available, seen, batches).error;
      if k == |plans| then left != map[] && error == UnexpectedResult
      else PlanIsWrong(plans[k], left, seen + CredentialsOf(plans[..k]), error)
  {
    hide TakeJobs, FillNamespaces;
    k := 0;
    assert seen + CredentialsOf(plans[..0]) == seen;
    if |plans| > 0 && plans[0].credentialId !in seen {
      var first := AssemblePlan(plans[0], available);
      if first.Success? {
        var n := PlansFailAt(plans[1..], first.value.0, seen + {plans[0].credentialId}, batches + [first.value.1]);
        k := n + 1;
        assert plans[..k][1..] == plans[1..][..n];
        if n < |plans[1..]| {
          CredentialsFirst(plans, n);
          assert seen + CredentialsOf(plans[..k])
              == (seen + {plans[0].credentialId}) + CredentialsOf(plans[1..][..n]);
        }
      }
    }
  }

  /** A batch fails because two results have one identity; or at the first plan
      that is wrong for the results the plans before it leave; or, when none is,
      because results are left over. */
  lemma {:induction false} BatchFailsAt(plans: seq<DigestPlan>, results: seq<DigestResult>) returns (k: nat)
    requires AssembleBatches(plans, results).Failure?
    ensures var error := AssembleBatches(plans, results).error;
      if !NoDuplicates(ResultIdentities(results)) then error == DuplicateResult
      else
        && k <= |plans| && LeftAfter(plans[..k], ByIdentity(results)).Some?
        && var left := LeftAfter(plans[..k], ByIdentity(results)).value;
           if k == |plans| then left != map[] && error == UnexpectedResult
           else PlanIsWrong(plans[k], left, CredentialsOf(plans[..k]), error)
  {
    hide NoDuplicates, ByIdentity, PlanIsWrong, LeftAfter;
    k := 0;
    if NoDuplicates(ResultIdentities(results)) {
      k := PlansFailAt(plans, ByIdentity(results), {}, []);
      assert {} + CredentialsOf(plans[..k]) == CredentialsOf(plans[..k]);
    }
  }
}
