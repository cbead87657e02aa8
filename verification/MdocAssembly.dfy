/** From executor results back to value digests (src/issuance/mdoc.rs): the
    path that takes results in any order, for one plan or a batch, and the path
    for results already in plan order. */
module MdocAssembly {
  import opened Fips180
  import opened DigestTypes
  import opened MdocDigestPlan
  import opened Distinctness

  datatype AssemblyError =
    | DuplicateResult | DuplicateCredential | InconsistentCredential | DuplicateJob
    | OmittedResult | ChangedMetadata | InvalidLength | UnknownJob
    | DuplicateDigestId | DuplicateNamespace | UnreferencedJob | UnexpectedResult
    | TooManyJobs | OmittedCredential

  datatype Identity = Identity(credentialId: U64, jobId: U64)

  type DigestIds = map<nat, seq<Byte>>
  type NamespaceDigests = map<string, DigestIds>
  type Available = map<Identity, DigestResult>
  type Taken = map<Identity, seq<Byte>>

  function ResultIdentity(result: DigestResult): Identity {
    Identity(result.credentialId, result.jobId)
  }

  function JobIdentity(job: DigestJob): Identity {
    Identity(job.credentialId, job.jobId)
  }

  function DigestIdentity(digest: PlannedDigest): Identity {
    Identity(digest.credentialId, digest.jobId)
  }

  ghost function ResultIdentities(results: seq<DigestResult>): (r: seq<Identity>)
    ensures |r| == |results|
    ensures forall i :: 0 <= i < |r| ==> r[i] == ResultIdentity(results[i])
  {
    seq(|results|, i requires 0 <= i < |results| => ResultIdentity(results[i]))
  }

  // ---------- Any order: as a function ----------

  /** Results keyed by identity; a later one replaces an earlier one. */
  function ByIdentity(results: seq<DigestResult>): Available {
    if |results| == 0 then map[]
    else
      var last := results[|results| - 1];
      ByIdentity(results[..|results| - 1])[ResultIdentity(last) := last]
  }

  function TakeJobs(credentialId: U64, jobs: seq<DigestJob>, available: Available, taken: Taken)
    : Result<(Available, Taken), AssemblyError>
  {
    if |jobs| == 0 then Success((available, taken))
    else
      var job, identity := jobs[0], JobIdentity(jobs[0]);
      if job.credentialId != credentialId then Failure(InconsistentCredential)
      else if identity in taken then Failure(DuplicateJob)
      else if identity !in available then Failure(OmittedResult)
      else if available[identity].ordinal != job.ordinal then Failure(ChangedMetadata)
      else if |available[identity].digest| != DigestLength(job.algorithm) then Failure(InvalidLength)
      else TakeJobs(credentialId, jobs[1..], available - {identity}, taken[identity := available[identity].digest])
  }

  function FillNamespace(credentialId: U64, digests: seq<PlannedDigest>, taken: Taken, ids: DigestIds)
    : Result<(Taken, DigestIds), AssemblyError>
  {
    if |digests| == 0 then Success((taken, ids))
    else
      var digest, identity := digests[0], DigestIdentity(digests[0]);
      if digest.credentialId != credentialId then Failure(InconsistentCredential)
      else if identity !in taken then Failure(UnknownJob)
      else if digest.digestId in ids then Failure(DuplicateDigestId)
      else FillNamespace(credentialId, digests[1..], taken - {identity}, ids[digest.digestId := taken[identity]])
  }

  function FillNamespaces(credentialId: U64, namespaces: seq<PlannedNamespace>, taken: Taken, filled: NamespaceDigests)
    : Result<(Taken, NamespaceDigests), AssemblyError>
  {
    if |namespaces| == 0 then Success((taken, filled))
    else
      match FillNamespace(credentialId, namespaces[0].digests, taken, map[])
      case Failure(error) => Failure(error)
      case Success((left, ids)) =>
        if namespaces[0].name in filled then Failure(DuplicateNamespace)
        else FillNamespaces(credentialId, namespaces[1..], left, filled[namespaces[0].name := ids])
  }

  function AssemblePlan(plan: DigestPlan, available: Available): Result<(Available, NamespaceDigests), AssemblyError> {
    match TakeJobs(plan.credentialId, plan.jobs, available, map[])
    case Failure(error) => Failure(error)
    case Success((others, taken)) =>
      match FillNamespaces(plan.credentialId, plan.namespaces, taken, map[])
      case Failure(error) => Failure(error)
      case Success((left, filled)) =>
        if left != map[] then Failure(UnreferencedJob) else Success((others, filled))
  }

  function AssemblePlans(plans: seq<DigestPlan>, available: Available, credentialIds: set<U64>,
                         batches: seq<NamespaceDigests>)
    : Result<seq<NamespaceDigests>, AssemblyError>
  {
    if |plans| == 0 then if available != map[] then Failure(UnexpectedResult) else Success(batches)
    else if plans[0].credentialId in credentialIds then Failure(DuplicateCredential)
    else
      match AssemblePlan(plans[0], available)
      case Failure(error) => Failure(error)
      case Success((others, filled)) =>
        AssemblePlans(plans[1..], others, credentialIds + {plans[0].credentialId}, batches + [filled])
  }

  ghost function AssembleBatches(plans: seq<DigestPlan>, results: seq<DigestResult>)
    : Result<seq<NamespaceDigests>, AssemblyError>
  {
    if !NoDuplicates(ResultIdentities(results)) then Failure(DuplicateResult)
    else AssemblePlans(plans, ByIdentity(results), {}, [])
  }

  ghost function AssembleReordered(plan: DigestPlan, results: seq<DigestResult>)
    : Result<NamespaceDigests, AssemblyError>
  {
    match AssembleBatches([plan], results)
    case Failure(error) => Failure(error)
    case Success(batches) => if |batches| == 0 then Failure(OmittedCredential) else Success(batches[|batches| - 1])
  }

  // ---------- Any order: as the source runs it ----------

  lemma NoneCollected()
    ensures NoDuplicates(ResultIdentities([])) && Elements(ResultIdentities([])) == {}
  {
  }

  method CollectResults(results: seq<DigestResult>) returns (resultsByIdentity: Available, duplicateResult: bool)
    ensures resultsByIdentity == ByIdentity(results)
    ensures duplicateResult <==> !NoDuplicates(ResultIdentities(results))
  {
    hide NoDuplicates, Elements;
    resultsByIdentity := map[];
    duplicateResult := false;
    NoneCollected();
    for n := 0 to |results|
      invariant resultsByIdentity == ByIdentity(results[..n])
      invariant resultsByIdentity.Keys == Elements(ResultIdentities(results[..n]))
      invariant duplicateResult <==> !NoDuplicates(ResultIdentities(results[..n]))
    {
      var result := results[n];
      assert results[..n + 1][..n] == results[..n];
      assert ResultIdentities(results[..n + 1]) == ResultIdentities(results[..n]) + [ResultIdentity(result)];
      NoDuplicatesPush(ResultIdentities(results[..n]), ResultIdentity(result));
      if ResultIdentity(result) in resultsByIdentity {
        duplicateResult := true;
      }
      resultsByIdentity := resultsByIdentity[ResultIdentity(result) := result];
    }
    assert results[..|results|] == results;
  }

  method TakePlannedResults(plan: DigestPlan, available: Available)
    returns (r: Result<Taken, AssemblyError>, resultsByIdentity: Available)
    ensures match TakeJobs(plan.credentialId, plan.jobs, available, map[])
      case Failure(error) => r == Failure(error)
      case Success((others, taken)) => r == Success(taken) && resultsByIdentity == others
  {
    resultsByIdentity := available;
    var digestsByIdentity: Taken := map[];
    var expectedIdentities: set<Identity> := {};
    assert plan.jobs[0..] == plan.jobs;
    for n := 0 to |plan.jobs|
      invariant expectedIdentities == digestsByIdentity.Keys
      invariant TakeJobs(plan.credentialId, plan.jobs, available, map[])
             == TakeJobs(plan.credentialId, plan.jobs[n..], resultsByIdentity, digestsByIdentity)
    {
      assert plan.jobs[n..][1..] == plan.jobs[n + 1..];
      var job := plan.jobs[n];
      if job.credentialId != plan.credentialId {
        return Failure(InconsistentCredential), resultsByIdentity;
      }
      var identity := JobIdentity(job);
      if identity in expectedIdentities {
        return Failure(DuplicateJob), resultsByIdentity;
      }
      expectedIdentities := expectedIdentities + {identity};
      if identity !in resultsByIdentity {
        return Failure(OmittedResult), resultsByIdentity;
      }
      var result := resultsByIdentity[identity];
      resultsByIdentity := resultsByIdentity - {identity};
      if result.ordinal != job.ordinal {
        return Failure(ChangedMetadata), resultsByIdentity;
      }
      if |result.digest| != DigestLength(job.algorithm) {
        return Failure(InvalidLength), resultsByIdentity;
      }
      digestsByIdentity := digestsByIdentity[identity := result.digest];
    }
    r := Success(digestsByIdentity);
  }

  method FillOneNamespace(credentialId: U64, digests: seq<PlannedDigest>, taken: Taken)
    returns (r: Result<DigestIds, AssemblyError>, digestsByIdentity: Taken)
    ensures match FillNamespace(credentialId, digests, taken, map[])
      case Failure(error) => r == Failure(error)
      case Success((left, ids)) => r == Success(ids) && digestsByIdentity == left
  {
    digestsByIdentity := taken;
    var digestIds: DigestIds := map[];
    assert digests[0..] == digests;
    for n := 0 to |digests|
      invariant FillNamespace(credentialId, digests, taken, map[])
             == FillNamespace(credentialId, digests[n..], digestsByIdentity, digestIds)
    {
      assert digests[n..][1..] == digests[n + 1..];
      var plannedDigest := digests[n];
      if plannedDigest.credentialId != credentialId {
        return Failure(InconsistentCredential), digestsByIdentity;
      }
      var identity := DigestIdentity(plannedDigest);
      if identity !in digestsByIdentity {
        return Failure(UnknownJob), digestsByIdentity;
      }
      var digest := digestsByIdentity[identity];
      digestsByIdentity := digestsByIdentity - {identity};
      if plannedDigest.digestId in digestIds {
        return Failure(DuplicateDigestId), digestsByIdentity;
      }
      digestIds := digestIds[plannedDigest.digestId := digest];
    }
    r := Success(digestIds);
  }

  method AssembleOnePlan(plan: DigestPlan, available: Available)
    returns (r: Result<NamespaceDigests, AssemblyError>, resultsByIdentity: Available)
    ensures match AssemblePlan(plan, available)
      case Failure(error) => r == Failure(error)
      case Success((others, filled)) => r == Success(filled) && resultsByIdentity == others
  {
    hide TakeJobs, FillNamespace;
    var taken;
    taken, resultsByIdentity := TakePlannedResults(plan, available);
    if taken.Failure? {
      return Failure(taken.error), resultsByIdentity;
    }
    var digestsByIdentity := taken.value;
    var namespaces: NamespaceDigests := map[];
    assert plan.namespaces[0..] == plan.namespaces;
    for n := 0 to |plan.namespaces|
      invariant FillNamespaces(plan.credentialId, plan.namespaces, taken.value, map[])
             == FillNamespaces(plan.credentialId, plan.namespaces[n..], digestsByIdentity, namespaces)
    {
      assert plan.namespaces[n..][1..] == plan.namespaces[n + 1..];
      var digestIds;
      digestIds, digestsByIdentity := FillOneNamespace(plan.credentialId, plan.namespaces[n].digests,
                                                       digestsByIdentity);
      if digestIds.Failure? {
        return Failure(digestIds.error), resultsByIdentity;
      }
      if plan.namespaces[n].name in namespaces {
        return Failure(DuplicateNamespace), resultsByIdentity;
      }
      namespaces := namespaces[plan.namespaces[n].name := digestIds.value];
    }
    if |digestsByIdentity| != 0 {
      return Failure(UnreferencedJob), resultsByIdentity;
    }
    r := Success(namespaces);
  }

  method AssembleReorderedDigestBatches(plans: seq<DigestPlan>, results: seq<DigestResult>)
    returns (r: Result<seq<NamespaceDigests>, AssemblyError>)
    ensures r == AssembleBatches(plans, results)
  {
    hide AssemblePlan, ByIdentity, NoDuplicates;
    var resultsByIdentity, duplicateResult := CollectResults(results);
    if duplicateResult {
      return Failure(DuplicateResult);
    }
    var credentialIds: set<U64> := {};
    var batches: seq<NamespaceDigests> := [];
    assert plans[0..] == plans;
    for n := 0 to |plans|
      invariant AssembleBatches(plans, results) == AssemblePlans(plans[n..], resultsByIdentity, credentialIds, batches)
    {
      assert plans[n..][1..] == plans[n + 1..];
      if plans[n].credentialId in credentialIds {
        return Failure(DuplicateCredential);
      }
      credentialIds := credentialIds + {plans[n].credentialId};
      var namespaces;
      namespaces, resultsByIdentity := AssembleOnePlan(plans[n], resultsByIdentity);
      if namespaces.Failure? {
        return Failure(namespaces.error);
      }
      batches := batches + [namespaces.value];
    }
    if |resultsByIdentity| != 0 {
      return Failure(UnexpectedResult);
    }
    r := Success(batches);
  }

  method AssembleReorderedDigestNamespaces(plan: DigestPlan, results: seq<DigestResult>)
    returns (r: Result<NamespaceDigests, AssemblyError>)
    ensures r == AssembleReordered(plan, results)
  {
    hide AssembleBatches;
    var batches := AssembleReorderedDigestBatches([plan], results);
    if batches.Failure? {
      return Failure(batches.error);
    }
    if |batches.value| == 0 {
      return Failure(OmittedCredential);
    }
    r := Success(batches.value[|batches.value| - 1]);
  }

  // ---------- Plan order ----------

  predicate ResultsFollowPlanOrder(plan: DigestPlan, results: seq<DigestResult>) {
    && |results| == |plan.jobs|
    && forall i :: 0 <= i < |results| ==>
         ResultIdentity(results[i]) == JobIdentity(plan.jobs[i]) && results[i].ordinal == plan.jobs[i].ordinal
  }

  /** What the ordered path still has to consume. */
  datatype Cursor = Cursor(jobs: seq<DigestJob>, results: seq<DigestResult>, expectedJobId: nat)

  function OrderedNamespace(credentialId: U64, digests: seq<PlannedDigest>, at: Cursor, ids: DigestIds)
    : Result<(Cursor, DigestIds), AssemblyError>
  {
    if |digests| == 0 then Success((at, ids))
    else if |at.jobs| == 0 then Failure(UnknownJob)
    else if |at.results| == 0 then Failure(OmittedResult)
    else
      var digest, job, result := digests[0], at.jobs[0], at.results[0];
      if job.credentialId != credentialId then Failure(InconsistentCredential)
      else if job.jobId != at.expectedJobId then Failure(DuplicateJob)
      else if digest.credentialId != credentialId then Failure(InconsistentCredential)
      else if DigestIdentity(digest) != JobIdentity(job) then Failure(UnknownJob)
      else if ResultIdentity(result) != JobIdentity(job) then Failure(ChangedMetadata)
      else if result.ordinal != job.ordinal then Failure(ChangedMetadata)
      else if |result.digest| != DigestLength(job.algorithm) then Failure(InvalidLength)
      else if digest.digestId in ids then Failure(DuplicateDigestId)
      else if at.expectedJobId + 1 >= TWO_64 then Failure(TooManyJobs)
      else OrderedNamespace(credentialId, digests[1..], Cursor(at.jobs[1..], at.results[1..], at.expectedJobId + 1),
                            ids[digest.digestId := result.digest])
  }

  function OrderedNamespaces(credentialId: U64, namespaces: seq<PlannedNamespace>, at: Cursor, filled: NamespaceDigests)
    : Result<(Cursor, NamespaceDigests), AssemblyError>
  {
    if |namespaces| == 0 then Success((at, filled))
    else
      match OrderedNamespace(credentialId, namespaces[0].digests, at, map[])
      case Failure(error) => Failure(error)
      case Success((next, ids)) =>
        if namespaces[0].name in filled then Failure(DuplicateNamespace)
        else OrderedNamespaces(credentialId, namespaces[1..], next, filled[namespaces[0].name := ids])
  }

  function AssembleOrdered(plan: DigestPlan, results: seq<DigestResult>): Result<NamespaceDigests, AssemblyError> {
    match OrderedNamespaces(plan.credentialId, plan.namespaces, Cursor(plan.jobs, results, 0), map[])
    case Failure(error) => Failure(error)
    case Success((end, filled)) =>
      if |end.jobs| != 0 then Failure(UnreferencedJob)
      else if |end.results| != 0 then Failure(UnexpectedResult)
      else Success(filled)
  }

  ghost function Assemble(plan: DigestPlan, results: seq<DigestResult>): Result<NamespaceDigests, AssemblyError> {
    if ResultsFollowPlanOrder(plan, results) then AssembleOrdered(plan, results) else AssembleReordered(plan, results)
  }

  method OrderedOneNamespace(credentialId: U64, digests: seq<PlannedDigest>, at: Cursor)
    returns (r: Result<DigestIds, AssemblyError>, next: Cursor)
    requires at.expectedJobId < TWO_64
    ensures match OrderedNamespace(credentialId, digests, at, map[])
      case Failure(error) => r == Failure(error)
      case Success((end, ids)) => r == Success(ids) && next == end && end.expectedJobId < TWO_64
  {
    next := at;
    var digestIds: DigestIds := map[];
    assert digests[0..] == digests;
    for n := 0 to |digests|
      invariant next.expectedJobId < TWO_64
      invariant OrderedNamespace(credentialId, digests, at, map[])
             == OrderedNamespace(credentialId, digests[n..], next, digestIds)
    {
      assert digests[n..][1..] == digests[n + 1..];
      var plannedDigest := digests[n];
      if |next.jobs| == 0 {
        return Failure(UnknownJob), next;
      }
      var job := next.jobs[0];
      if |next.results| == 0 {
        return Failure(OmittedResult), next;
      }
      var result := next.results[0];
      if job.credentialId != credentialId {
        return Failure(InconsistentCredential), next;
      }
      if job.jobId != next.expectedJobId {
        return Failure(DuplicateJob), next;
      }
      if plannedDigest.credentialId != credentialId {
        return Failure(InconsistentCredential), next;
      }
      if DigestIdentity(plannedDigest) != JobIdentity(job) {
        return Failure(UnknownJob), next;
      }
      if ResultIdentity(result) != JobIdentity(job) {
        return Failure(ChangedMetadata), next;
      }
      if result.ordinal != job.ordinal {
        return Failure(ChangedMetadata), next;
      }
      if |result.digest| != DigestLength(job.algorithm) {
        return Failure(InvalidLength), next;
      }
      if plannedDigest.digestId in digestIds {
        return Failure(DuplicateDigestId), next;
      }
      digestIds := digestIds[plannedDigest.digestId := result.digest];
      if next.expectedJobId + 1 >= TWO_64 {
        return Failure(TooManyJobs), next;
      }
      next := Cursor(next.jobs[1..], next.results[1..], next.expectedJobId + 1);
    }
    r := Success(digestIds);
  }

  method AssembleOrderedDigestNamespaces(plan: DigestPlan, results: seq<DigestResult>)
    returns (r: Result<NamespaceDigests, AssemblyError>)
    ensures r == AssembleOrdered(plan, results)
  {
    hide OrderedNamespace;
    var at := Cursor(plan.jobs, results, 0);
    var namespaces: NamespaceDigests := map[];
    assert plan.namespaces[0..] == plan.namespaces;
    for n := 0 to |plan.namespaces|
      invariant at.expectedJobId < TWO_64
      invariant OrderedNamespaces(plan.credentialId, plan.namespaces, Cursor(plan.jobs, results, 0), map[])
             == OrderedNamespaces(plan.credentialId, plan.namespaces[n..], at, namespaces)
    {
      assert plan.namespaces[n..][1..] == plan.namespaces[n + 1..];
      var digestIds, next := OrderedOneNamespace(plan.credentialId, plan.namespaces[n].digests, at);
      if digestIds.Failure? {
        return Failure(digestIds.error);
      }
      at := next;
      if plan.namespaces[n].name in namespaces {
        return Failure(DuplicateNamespace);
      }
      namespaces := namespaces[plan.namespaces[n].name := digestIds.value];
    }
    if |at.jobs| != 0 {
      return Failure(UnreferencedJob);
    }
    if |at.results| != 0 {
      return Failure(UnexpectedResult);
    }
    r := Success(namespaces);
  }

  method AssembleDigestNamespaces(plan: DigestPlan, results: seq<DigestResult>)
    returns (r: Result<NamespaceDigests, AssemblyError>)
    ensures r == Assemble(plan, results)
  {
    hide AssembleOrdered, AssembleReordered;
    if ResultsFollowPlanOrder(plan, results) {
      r := AssembleOrderedDigestNamespaces(plan, results);
    } else {
      r := AssembleReorderedDigestNamespaces(plan, results);
    }
  }
}
