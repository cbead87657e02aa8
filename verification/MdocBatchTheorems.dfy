/** A batch is its items one after another, and what each map holds
    (src/issuance/mdoc.rs). */
module MdocBatchTheorems {
  import opened Fips180
  import opened DigestTypes
  import opened DigestExecutor
  import opened MdocPlanning
  import opened MdocDigestPlan
  import opened MdocAssembly
  import opened MdocAssemblyExact
  import opened MdocAssemblyOrder
  import opened MdocBatch
  import opened Distinctness

  /** The executor contract: each job's result, in any order. */
  ghost predicate PermutesSerial(hash: Hash, executor: Executor) {
    forall jobs :: executor(jobs).Some? && multiset(executor(jobs).value) == multiset(SerialExecute(hash, jobs))
  }

  /** The pooled executor, for any number of workers. */
  function PooledExecutor(hash: Hash, workers: nat): Executor {
    jobs => Some(if |jobs| > 0 && workers > 0 then PooledExecute(hash, jobs, workers) else SerialExecute(hash, jobs))
  }

  lemma {:induction false} PooledExecutorIsLawful(hash: Hash, workers: nat)
    ensures PermutesSerial(hash, PooledExecutor(hash, workers))
  {
    hide PooledExecute, SerialExecute;
    forall jobs: seq<DigestJob> | |jobs| > 0 && workers > 0
      ensures PooledExecute(hash, jobs, workers) == SerialExecute(hash, jobs)
    {
      PooledExecuteIsSerial(hash, jobs, workers);
    }
  }

  // ---------- The map a plan stands for ----------

  ghost function JobHashes(hash: Hash, jobs: seq<DigestJob>): (r: seq<seq<Byte>>)
    ensures |r| == |jobs|
    ensures forall i :: 0 <= i < |r| ==> r[i] == hash(jobs[i].algorithm, jobs[i].input)
  {
    seq(|jobs|, i requires 0 <= i < |jobs| => hash(jobs[i].algorithm, jobs[i].input))
  }

  ghost function NamespaceOf(planned: seq<PlannedDigest>, hashes: seq<seq<Byte>>): DigestIds
    requires |planned| <= |hashes|
  {
    if |planned| == 0 then map[]
    else map[planned[0].digestId := hashes[0]] + NamespaceOf(planned[1..], hashes[1..])
  }

  ghost function NamespacesOf(namespaces: seq<PlannedNamespace>, hashes: seq<seq<Byte>>): NamespaceDigests
    requires |AllDigests(namespaces)| <= |hashes|
  {
    if |namespaces| == 0 then map[]
    else
      var first := namespaces[0].digests;
      map[namespaces[0].name := NamespaceOf(first, hashes)] + NamespacesOf(namespaces[1..], hashes[|first|..])
  }

  /** Digest ids to the hashes of the jobs planned with them, in order. */
  ghost function HashedPlan(hash: Hash, plan: DigestPlan): NamespaceDigests
    requires |AllDigests(plan.namespaces)| == |plan.jobs|
  {
    NamespacesOf(plan.namespaces, JobHashes(hash, plan.jobs))
  }

  ghost predicate Holds(digests: Taken, planned: seq<PlannedDigest>, hashes: seq<seq<Byte>>) {
    |planned| <= |hashes| && forall i :: 0 <= i < |planned| ==>
      DigestOf(digests, DigestIdentity(planned[i])) == hashes[i]
  }

  lemma {:induction false} NamespaceMapIsPositional(planned: seq<PlannedDigest>, digests: Taken, hashes: seq<seq<Byte>>)
    requires Holds(digests, planned, hashes)
    ensures NamespaceMap(planned, digests) == NamespaceOf(planned, hashes)
  {
    hide DigestOf;
    if |planned| > 0 {
      NamespaceMapIsPositional(planned[1..], digests, hashes[1..]);
    }
  }

  lemma {:induction false} PlanMapIsPositional(namespaces: seq<PlannedNamespace>, digests: Taken,
                                               hashes: seq<seq<Byte>>)
    requires Holds(digests, AllDigests(namespaces), hashes)
    ensures PlanMap(namespaces, digests) == NamespacesOf(namespaces, hashes)
  {
    hide DigestOf, NamespaceMap, NamespaceOf;
    if |namespaces| > 0 {
      var first, others := namespaces[0].digests, AllDigests(namespaces[1..]);
      var all := AllDigests(namespaces);
      assert forall i :: 0 <= i < |first| ==> all[i] == first[i];
      assert forall i :: 0 <= i < |others| ==> all[|first| + i] == others[i];
      NamespaceMapIsPositional(first, digests, hashes);
      PlanMapIsPositional(namespaces[1..], digests, hashes[|first|..]);
    }
  }

  lemma {:induction false} NamespaceOfRelabels(c: U64, planned: seq<PlannedDigest>, hashes: seq<seq<Byte>>)
    requires |planned| <= |hashes|
    ensures NamespaceOf(RelabelDigests(c, planned), hashes) == NamespaceOf(planned, hashes)
  {
    if |planned| > 0 {
      assert RelabelDigests(c, planned)[1..] == RelabelDigests(c, planned[1..]);
      NamespaceOfRelabels(c, planned[1..], hashes[1..]);
    }
  }

  lemma {:induction false} NamespacesOfRelabels(c: U64, namespaces: seq<PlannedNamespace>, hashes: seq<seq<Byte>>)
    requires |AllDigests(namespaces)| <= |hashes|
    ensures |AllDigests(RelabelNamespaces(c, namespaces))| == |AllDigests(namespaces)|
    ensures NamespacesOf(RelabelNamespaces(c, namespaces), hashes) == NamespacesOf(namespaces, hashes)
  {
    hide NamespaceOf;
    if |namespaces| > 0 {
      var first := namespaces[0].digests;
      assert RelabelNamespaces(c, namespaces)[1..] == RelabelNamespaces(c, namespaces[1..]);
      NamespaceOfRelabels(c, first, hashes);
      NamespacesOfRelabels(c, namespaces[1..], hashes[|first|..]);
    }
  }

  /** The credential id leaves no trace in the value digests. */
  lemma HashedPlanRelabels(hash: Hash, c: U64, plan: DigestPlan)
    requires |AllDigests(plan.namespaces)| == |plan.jobs|
    ensures |AllDigests(Relabel(c, plan).namespaces)| == |Relabel(c, plan).jobs|
    ensures HashedPlan(hash, Relabel(c, plan)) == HashedPlan(hash, plan)
  {
    hide NamespacesOf, AllDigests;
    NamespacesOfRelabels(c, plan.namespaces, JobHashes(hash, plan.jobs));
    assert JobHashes(hash, RelabelJobs(c, plan.jobs)) == JobHashes(hash, plan.jobs);
  }

  // ---------- Lawful executors assemble ----------

  ghost predicate AllSequential(plans: seq<DigestPlan>) {
    forall k :: 0 <= k < |plans| ==> Sequential(plans[k])
  }

  ghost function HashedPlans(hash: Hash, plans: seq<DigestPlan>): (r: seq<NamespaceDigests>)
    requires AllSequential(plans)
    ensures |r| == |plans|
    ensures forall k :: 0 <= k < |plans| ==> r[k] == HashedPlan(hash, plans[k])
  {
    seq(|plans|, k requires 0 <= k < |plans| && Sequential(plans[k]) => HashedPlan(hash, plans[k]))
  }

  lemma {:induction false} AllJobsAt(plans: seq<DigestPlan>, k: nat, i: nat) returns (at: nat)
    requires k < |plans| && i < |plans[k].jobs|
    ensures at < |AllJobs(plans)| && AllJobs(plans)[at] == plans[k].jobs[i]
  {
    if k == 0 {
      at := i;
    } else {
      var before := AllJobsAt(plans[1..], k - 1, i);
      at := |plans[0].jobs| + before;
    }
  }

  lemma JobIdentitiesJoin(a: seq<DigestJob>, b: seq<DigestJob>)
    ensures JobIdentities(a + b) == JobIdentities(a) + JobIdentities(b)
  {
  }

  lemma {:induction false} AllJobsAreDistinct(plans: seq<DigestPlan>)
    requires NoDuplicates(CredentialIds(plans))
    requires forall k :: 0 <= k < |plans| ==> WellFormed(plans[k])
    ensures NoDuplicates(JobIdentities(AllJobs(plans)))
    ensures Elements(JobIdentities(AllJobs(plans))) == PlannedIdentities(plans)
  {
    hide NoDuplicates, Elements, WellFormed, PlannedIdentities;
    if |plans| == 0 {
      NothingIsDistinct<Identity>();
      assert JobIdentities(AllJobs(plans)) == [];
      NothingPlanned(plans);
    } else {
      var c, others := plans[0].credentialId, plans[1..];
      assert CredentialIds(plans) == [c] + CredentialIds(others);
      NoDuplicatesCons(c, CredentialIds(others));
      ElementsAt(CredentialIds(others));
      AllJobsAreDistinct(others);
      JobIdentitiesJoin(plans[0].jobs, AllJobs(others));
      NoDuplicatesConcat(JobIdentities(plans[0].jobs), JobIdentities(AllJobs(others)));
      PlannedFirst(plans);
      OwnIdentities(plans[0]);
      forall k | 0 <= k < |others|
        ensures others[k].credentialId != c
      {
        assert CredentialIds(others)[k] in Elements(CredentialIds(others));
      }
      PlannedElsewhere(others, c);
      PlanIdentitiesDistinct(plans[0]);
    }
  }

  lemma PlanIdentitiesDistinct(plan: DigestPlan)
    requires WellFormed(plan)
    ensures NoDuplicates(JobIdentities(plan.jobs))
  {
  }

  lemma {:induction false} SerialAnswers(hash: Hash, plans: seq<DigestPlan>)
    requires IsDigest(hash) && NoDuplicates(CredentialIds(plans))
    requires forall k :: 0 <= k < |plans| ==> WellFormed(plans[k])
    ensures ResultsAnswer(plans, SerialExecute(hash, AllJobs(plans)))
  {
    hide NoDuplicates, Elements, WellFormed, PlannedIdentities, AllJobs;
    var jobs := AllJobs(plans);
    var results := SerialExecute(hash, jobs);
    AllJobsAreDistinct(plans);
    assert ResultIdentities(results) == JobIdentities(jobs);
    forall k, i | 0 <= k < |plans| && 0 <= i < |plans[k].jobs|
      ensures exists r :: 0 <= r < |results|
                && ResultIdentity(results[r]) == JobIdentity(plans[k].jobs[i]) && Fits(results[r], plans[k].jobs[i])
    {
      var at := AllJobsAt(plans, k, i);
      assert Fits(results[at], plans[k].jobs[i]) && ResultIdentity(results[at]) == JobIdentity(plans[k].jobs[i]);
    }
    ElementsAt(JobIdentities(jobs));
    assert forall r :: 0 <= r < |results| ==> ResultIdentity(results[r]) == JobIdentities(jobs)[r];
  }

  lemma {:induction false} SerialHolds(hash: Hash, plans: seq<DigestPlan>, k: nat)
    requires NoDuplicates(CredentialIds(plans)) && AllSequential(plans) && k < |plans|
    ensures Holds(DigestMap(ByIdentity(SerialExecute(hash, AllJobs(plans)))), AllDigests(plans[k].namespaces),
                  JobHashes(hash, plans[k].jobs))
  {
    hide NoDuplicates, AllJobs, AllDigests, ByIdentity, DigestIdsDiffer;
    var jobs := AllJobs(plans);
    var results := SerialExecute(hash, jobs);
    forall n | 0 <= n < |plans|
      ensures WellFormed(plans[n])
    {
      SequentialIsWellFormed(plans[n]);
    }
    AllJobsAreDistinct(plans);
    assert ResultIdentities(results) == JobIdentities(jobs);
    ByIdentityMeans(results);
    var all := AllDigests(plans[k].namespaces);
    assert Sequential(plans[k]);
    forall i | 0 <= i < |all|
      ensures DigestOf(DigestMap(ByIdentity(results)), DigestIdentity(all[i])) == JobHashes(hash, plans[k].jobs)[i]
    {
      var at := AllJobsAt(plans, k, i);
      assert SequentialAt(plans[k].credentialId, all[i], plans[k].jobs[i], i);
      assert ResultIdentity(results[at]) in ByIdentity(results);
    }
  }

  /** Planner plans of different credentials and any permutation of the serial
      results: assembly succeeds, and gives each plan its own hashes. */
  lemma {:induction false} LawfulResultsAssemble(hash: Hash, plans: seq<DigestPlan>, results: seq<DigestResult>)
    requires IsDigest(hash) && NoDuplicates(CredentialIds(plans)) && AllSequential(plans)
    requires multiset(results) == multiset(SerialExecute(hash, AllJobs(plans)))
    ensures AssembleBatches(plans, results) == Success(HashedPlans(hash, plans))
  {
    hide NoDuplicates, AssembleBatches, Sequential, HashedPlan, PlanMap, ByIdentity, AllJobs, DigestMap, WellFormed,
         Holds;
    var serial := SerialExecute(hash, AllJobs(plans));
    PermutationDoesNotMatter(plans, results, serial);
    forall k | 0 <= k < |plans|
      ensures WellFormed(plans[k])
    {
      SequentialIsWellFormed(plans[k]);
    }
    SerialAnswers(hash, plans);
    BatchSucceedsExactly(plans, serial);
    forall k | 0 <= k < |plans|
      ensures |AllDigests(plans[k].namespaces)| == |plans[k].jobs|
      ensures PlanMap(plans[k].namespaces, DigestMap(ByIdentity(serial))) == HashedPlan(hash, plans[k])
    {
      SequentialSize(plans[k]);
      SerialHolds(hash, plans, k);
      HoldsGives(hash, plans[k], DigestMap(ByIdentity(serial)));
    }
    assert BatchMaps(plans, DigestMap(ByIdentity(serial))) == HashedPlans(hash, plans);
  }

  lemma SequentialSize(plan: DigestPlan)
    requires Sequential(plan)
    ensures |AllDigests(plan.namespaces)| == |plan.jobs|
  {
  }

  lemma {:induction false} HoldsGives(hash: Hash, plan: DigestPlan, digests: Taken)
    requires Sequential(plan) && Holds(digests, AllDigests(plan.namespaces), JobHashes(hash, plan.jobs))
    ensures PlanMap(plan.namespaces, digests) == HashedPlan(hash, plan)
  {
    PlanMapIsPositional(plan.namespaces, digests, JobHashes(hash, plan.jobs));
  }

  lemma LawfulSingleAssembles(hash: Hash, plan: DigestPlan, results: seq<DigestResult>)
    requires IsDigest(hash) && Sequential(plan)
    requires multiset(results) == multiset(SerialExecute(hash, plan.jobs))
    ensures Assemble(plan, results) == Success(HashedPlan(hash, plan))
  {
    hide NoDuplicates, AssembleBatches, Sequential, HashedPlan, Assemble;
    SequentialPathsAgree(plan, results);
    NoDuplicatesSingle([plan]);
    assert AllJobs([plan]) == plan.jobs by {
      assert AllJobs([plan][1..]) == [];
    }
    LawfulResultsAssemble(hash, [plan], results);
  }

  // ---------- A batch is its items one after another ----------

  lemma {:induction false} IssuedNamesDiffer(encode: Encoder, namespaces: Namespaces, tape: Tape)
    requires IssuerNamespacesOf(encode, namespaces, tape).Success?
    ensures var issued := IssuerNamespacesOf(encode, namespaces, tape).value.0;
      && (forall k :: 0 <= k < |issued| ==> DistinctIds(issued[k].items))
      && (forall i, j :: 0 <= i < j < |issued| ==> issued[i].name != issued[j].name)
  {
    hide IssueNamespaces, DistinctIds;
    IssuedNamespacesMatch(encode, namespaces, tape);
  }

  lemma {:induction false} PlanOneIsSequential(encode: Encoder, c: U64, inputs: Inputs, tape: Tape)
    requires PlanOne(encode, c, inputs, tape).Success?
    ensures var plan := PlanOne(encode, c, inputs, tape).value.0.1; plan.credentialId == c && Sequential(plan)
  {
    hide Sequential, IssuerNamespacesOf, DistinctIds, PlanNamespaces;
    IssuedNamesDiffer(encode, inputs.namespaces, tape);
    var (issued, t1) := IssuerNamespacesOf(encode, inputs.namespaces, tape).value;
    var plan := PlanOne(encode, c, inputs, tape).value.0.1;
    PlannerPlanIsSequential(plan, issued, inputs.digestAlgorithm, inputs.enableDecoyDigests, t1);
  }

  lemma {:induction false} PlanOneRelabels(encode: Encoder, c: U64, inputs: Inputs, tape: Tape)
    ensures PlanOne(encode, c, inputs, tape)
         == match PlanOne(encode, MDOC_CREDENTIAL_ID, inputs, tape)
            case Failure(error) => Failure(error)
            case Success(((issued, plan), rest)) => Success(((issued, Relabel(c, plan)), rest))
  {
    hide IssuerNamespacesOf, PlanOf, Relabel;
    var issued := IssuerNamespacesOf(encode, inputs.namespaces, tape);
    if issued.Success? {
      PlanRelabels(c, MDOC_CREDENTIAL_ID, issued.value.0, inputs.digestAlgorithm, inputs.enableDecoyDigests,
                   issued.value.1);
    }
  }

  lemma {:induction false} PlanAllIsSequential(encode: Encoder, items: seq<ValidatedItem>, tape: Tape)
    requires PlanAll(encode, items, tape).Success?
    ensures var planned := PlanAll(encode, items, tape).value.0;
      && |planned| == |items|
      && AllSequential(Plans(planned))
      && forall k :: 0 <= k < |planned| ==>
           && planned[k].item == items[k]
           && planned[k].plan.credentialId == items[k].credentialId
  {
    hide Sequential, PlanOne;
    if |items| > 0 {
      PlanOneIsSequential(encode, items[0].credentialId, items[0].inputs, tape);
      var ((issued, plan), rest) := PlanOne(encode, items[0].credentialId, items[0].inputs, tape).value;
      PlanAllIsSequential(encode, items[1..], rest);
      var planned := PlanAll(encode, items, tape).value.0;
      assert planned == [PlannedItem(items[0], issued, plan)] + PlanAll(encode, items[1..], rest).value.0;
      assert forall k :: 0 < k < |planned| ==> Plans(planned)[k] == Plans(planned[1..])[k - 1];
    }
  }

  /** The items one after another, each as a single mdoc, on one tape. */
  ghost function PrepareEach(encode: Encoder, executor: Executor, finish: Finisher, items: seq<ValidatedItem>,
                             tape: Tape)
    : Preparation<seq<PreparedItem>>
  {
    if |items| == 0 then Success(([], tape))
    else
      match PrepareOne(encode, executor, finish, items[0].inputs, tape)
      case Failure(error) => Failure(error)
      case Success((prepared, t1)) =>
        match PrepareEach(encode, executor, finish, items[1..], t1)
        case Failure(error) => Failure(error)
        case Success((others, t2)) => Success(([PreparedItem(items[0].credentialId, prepared)] + others, t2))
  }

  /** What a lawful executor makes of a single preparation. */
  ghost function OneValue(hash: Hash, encode: Encoder, finish: Finisher, c: U64, inputs: Inputs, tape: Tape)
    : Preparation<PreparedMdoc>
  {
    match PlanOne(encode, c, inputs, tape)
    case Failure(error) => Failure(Planning(error))
    case Success(((issued, plan), rest)) =>
      PlanOneIsSequential(encode, c, inputs, tape);
      SequentialSize(plan);
      match Finish(finish, inputs, issued, HashedPlan(hash, plan))
      case Failure(error) => Failure(error)
      case Success(prepared) => Success((prepared, rest))
  }

  /** What a lawful executor makes of a batch. */
  ghost function BatchValue(hash: Hash, encode: Encoder, finish: Finisher, items: seq<ValidatedItem>, tape: Tape)
    : Preparation<seq<PreparedItem>>
  {
    match PlanAll(encode, items, tape)
    case Failure(error) => Failure(Planning(error))
    case Success((planned, rest)) =>
      PlanAllIsSequential(encode, items, tape);
      match FinishAll(finish, planned, HashedPlans(hash, Plans(planned)))
      case Failure(error) => Failure(error)
      case Success(prepared) => Success((prepared, rest))
  }

  lemma {:induction false} SingleIsOneValue(hash: Hash, encode: Encoder, executor: Executor, finish: Finisher, c: U64,
                                            inputs: Inputs, tape: Tape)
    requires IsDigest(hash) && PermutesSerial(hash, executor)
    ensures PrepareOne(encode, executor, finish, inputs, tape) == OneValue(hash, encode, finish, c, inputs, tape)
  {
    hide Sequential, PlanOne, HashedPlan, Assemble, Finish, Relabel, IsDigest;
    PlanOneRelabels(encode, c, inputs, tape);
    if PlanOne(encode, MDOC_CREDENTIAL_ID, inputs, tape).Success? {
      var plan := PlanOne(encode, MDOC_CREDENTIAL_ID, inputs, tape).value.0.1;
      PlanOneIsSequential(encode, MDOC_CREDENTIAL_ID, inputs, tape);
      SequentialSize(plan);
      LawfulSingleAssembles(hash, plan, executor(plan.jobs).value);
      HashedPlanRelabels(hash, c, plan);
    }
  }

  ghost predicate DifferentCredentials(items: seq<ValidatedItem>) {
    forall i, j :: 0 <= i < j < |items| ==> items[i].credentialId != items[j].credentialId
  }

  lemma {:induction false} BatchIsBatchValue(hash: Hash, encode: Encoder, executor: Executor, finish: Finisher,
                                             items: seq<ValidatedItem>, tape: Tape)
    requires IsDigest(hash) && PermutesSerial(hash, executor) && DifferentCredentials(items)
    ensures PrepareItems(encode, executor, finish, items, tape) == BatchValue(hash, encode, finish, items, tape)
  {
    hide PlanAll, HashedPlan, AssembleBatches, FinishAll, Sequential, IsDigest;
    if PlanAll(encode, items, tape).Success? {
      PlanAllIsSequential(encode, items, tape);
      var planned := PlanAll(encode, items, tape).value.0;
      assert NoDuplicates(CredentialIds(Plans(planned)));
      LawfulResultsAssemble(hash, Plans(planned), executor(AllJobs(Plans(planned))).value);
    }
  }

  lemma {:induction false} BatchValueFirst(hash: Hash, encode: Encoder, finish: Finisher,
                                           items: seq<ValidatedItem>, tape: Tape)
    requires |items| > 0
    ensures var batch := BatchValue(hash, encode, finish, items, tape);
      var plans := PlanAll(encode, items, tape);
      match OneValue(hash, encode, finish, items[0].credentialId, items[0].inputs, tape)
      case Success((prepared, t1)) =>
        var otherPlans := PlanAll(encode, items[1..], t1);
        && batch == (match BatchValue(hash, encode, finish, items[1..], t1)
                     case Failure(error) => Failure(error)
                     case Success((others, t2)) =>
                       Success(([PreparedItem(items[0].credentialId, prepared)] + others, t2)))
        && (plans.Failure? || otherPlans.Failure? ==>
              plans.Failure? && otherPlans.Failure? && plans.error == otherPlans.error)
      case Failure(error) =>
        if error == Finishing
        then batch == if plans.Success? then Failure(Finishing) else Failure(Planning(plans.error))
        else error.Planning? && batch == Failure(error) && plans.Failure?
  {
    hide HashedPlan, Sequential, PlanOne;
    var planOne := PlanOne(encode, items[0].credentialId, items[0].inputs, tape);
    if planOne.Success? {
      var ((issued, plan), rest) := planOne.value;
      PlanOneIsSequential(encode, items[0].credentialId, items[0].inputs, tape);
      SequentialSize(plan);
      var planRest := PlanAll(encode, items[1..], rest);
      if planRest.Success? {
        PlanAllIsSequential(encode, items[1..], rest);
        PlanAllIsSequential(encode, items, tape);
        var planned := PlanAll(encode, items, tape).value.0;
        assert planned == [PlannedItem(items[0], issued, plan)] + planRest.value.0;
        assert planned[1..] == planRest.value.0;
        assert HashedPlans(hash, Plans(planned))[1..] == HashedPlans(hash, Plans(planRest.value.0));
        assert HashedPlans(hash, Plans(planned))[0] == HashedPlan(hash, plan);
      }
    }
  }

  /** Planned in caller order, the items reach one that is planned but that the
      finisher refuses, before any that cannot be planned. */
  ghost predicate FinisherRefusesFirst(hash: Hash, encode: Encoder, finish: Finisher, items: seq<ValidatedItem>,
                                       tape: Tape)
  {
    && |items| > 0
    && var first := PlanOne(encode, items[0].credentialId, items[0].inputs, tape);
       && first.Success?
       && var ((issued, plan), rest) := first.value;
          PlanOneIsSequential(encode, items[0].credentialId, items[0].inputs, tape);
          SequentialSize(plan);
          || Finish(finish, items[0].inputs, issued, HashedPlan(hash, plan)).Failure?
          || FinisherRefusesFirst(hash, encode, finish, items[1..], rest)
  }

  lemma {:induction false} FinishingFails(hash: Hash, encode: Encoder, executor: Executor, finish: Finisher,
                                          items: seq<ValidatedItem>, tape: Tape)
    requires IsDigest(hash) && PermutesSerial(hash, executor)
    ensures PrepareEach(encode, executor, finish, items, tape) == Failure(Finishing)
            <==> FinisherRefusesFirst(hash, encode, finish, items, tape)
  {
    hide IsDigest, PermutesSerial, PrepareOne, PlanOne, HashedPlan;
    if |items| > 0 {
      SingleIsOneValue(hash, encode, executor, finish, items[0].credentialId, items[0].inputs, tape);
      var one := OneValue(hash, encode, finish, items[0].credentialId, items[0].inputs, tape);
      if one.Success? {
        FinishingFails(hash, encode, executor, finish, items[1..], one.value.1);
      }
    }
  }

  /** Items one after another against a batch: equal, value or error, unless an
      item is refused by the finisher and a later one cannot be planned; then the
      batch reports the planning error. */
  lemma {:induction false} EachIsBatchValue(hash: Hash, encode: Encoder, executor: Executor, finish: Finisher,
                                            items: seq<ValidatedItem>, tape: Tape)
    requires IsDigest(hash) && PermutesSerial(hash, executor)
    ensures var each := PrepareEach(encode, executor, finish, items, tape);
      var batch := BatchValue(hash, encode, finish, items, tape);
      var plans := PlanAll(encode, items, tape);
      && (each.Success? <==> batch.Success?)
      && (each == batch <==> plans.Success? || !FinisherRefusesFirst(hash, encode, finish, items, tape))
      && (each != batch ==> each == Failure(Finishing) && batch == Failure(Planning(plans.error)))
  {
    hide IsDigest, PermutesSerial, PrepareOne, OneValue, HashedPlan, FinisherRefusesFirst;
    FinishingFails(hash, encode, executor, finish, items, tape);
    if |items| == 0 {
      assert HashedPlans(hash, Plans([])) == [];
    } else {
      SingleIsOneValue(hash, encode, executor, finish, items[0].credentialId, items[0].inputs, tape);
      BatchValueFirst(hash, encode, finish, items, tape);
      var one := OneValue(hash, encode, finish, items[0].credentialId, items[0].inputs, tape);
      if one.Success? {
        EachIsBatchValue(hash, encode, executor, finish, items[1..], one.value.1);
      }
    }
  }

  lemma {:induction false} TotalFinish(hash: Hash, encode: Encoder, executor: Executor, finish: Finisher,
                                       items: seq<ValidatedItem>, tape: Tape)
    requires forall mso, algorithm :: finish(mso, algorithm).Some?
    ensures PrepareEach(encode, executor, finish, items, tape) != Failure(Finishing)
  {
    hide Assemble, PlanOne;
    if |items| > 0 {
      var one := PrepareOne(encode, executor, finish, items[0].inputs, tape);
      if one.Success? {
        TotalFinish(hash, encode, executor, finish, items[1..], one.value.1);
      }
    }
  }

  /** For different credential ids and executors that return the serial results
      in any order (even across credentials): a batch succeeds exactly when its
      items prepared one after another do. Both then give the same prepared mdocs
      in caller order and leave the same tape. The errors are the same too unless
      some item cannot be planned and, before it, one is planned that the finisher
      refuses; then, and only then, the batch reports the planning error and the
      items one by one report the refusal. */
  lemma {:induction false} BatchIsSequential(
      hash: Hash, encode: Encoder, batchExecutor: Executor, singleExecutor: Executor, finish: Finisher,
      items: seq<ValidatedItem>, tape: Tape)
    requires IsDigest(hash) && PermutesSerial(hash, batchExecutor) && PermutesSerial(hash, singleExecutor)
    requires DifferentCredentials(items)
    ensures var each := PrepareEach(encode, singleExecutor, finish, items, tape);
      var batch := PrepareItems(encode, batchExecutor, finish, items, tape);
      var plans := PlanAll(encode, items, tape);
      && (each.Success? <==> batch.Success?)
      && (each.Success? ==> each == batch)
      && (each == batch <==> plans.Success? || !FinisherRefusesFirst(hash, encode, finish, items, tape))
      && (each != batch ==> each == Failure(Finishing) && batch == Failure(Planning(plans.error)))
      && ((forall mso, algorithm :: finish(mso, algorithm).Some?) ==> each == batch)
  {
    hide *;
    BatchIsBatchValue(hash, encode, batchExecutor, finish, items, tape);
    EachIsBatchValue(hash, encode, singleExecutor, finish, items, tape);
    if forall mso, algorithm :: finish(mso, algorithm).Some? {
      TotalFinish(hash, encode, singleExecutor, finish, items, tape);
    }
  }

  // ---------- A batch whose errors differ ----------

  function OneElement(key: string): Inputs {
    Inputs("d", [Namespace("n", [Element(key, [])])], [], SHA256, DeviceKeyInfo([], None), -7, false)
  }

  const SOME_DRAW: Draw := Draw(0, Zeros(16), 5, Zeros(512))
  const FOUR_DRAWS: Tape := [SOME_DRAW, SOME_DRAW, SOME_DRAW, SOME_DRAW]

  function RefuseB(item: IssuerSignedItem): Option<Bytes64> {
    if item.elementIdentifier == "b" then None else Some([])
  }

  function RefuseAll(mso: Mso, algorithm: int): Option<seq<Byte>> {
    None
  }

  lemma {:induction false} OneElementIssues(key: string, tape: Tape)
    requires |tape| >= 2
    ensures var item := IssuerSignedItem(DigestIdNew(tape[0].asI32), tape[1].asSalt, key, []);
      IssueItems(RefuseB, [Element(key, [])], {}, tape)
      == if RefuseB(item).None? then Failure(EncodingFailed) else Success(([IssuedItem(item, [])], tape[2..]))
  {
    var id := DigestIdNew(tape[0].asI32);
    var item := IssuerSignedItem(id, tape[1].asSalt, key, []);
    assert DrawDigestId({}, tape) == Some((id, tape[1..]));
    assert tape[1..][0] == tape[1] && tape[1..][1..] == tape[2..] && [Element(key, [])][1..] == [];
    assert IssueItems(RefuseB, [], {} + {id}, tape[2..]) == Success(([], tape[2..]));
    assert [IssuedItem(item, [])] + [] == [IssuedItem(item, [])];
  }

  lemma {:induction false} OneNamespaceIssues(key: string, tape: Tape)
    requires |tape| >= 2
    ensures var item := IssuerSignedItem(DigestIdNew(tape[0].asI32), tape[1].asSalt, key, []);
      IssuerNamespacesOf(RefuseB, OneElement(key).namespaces, tape)
      == if RefuseB(item).None? then Failure(EncodingFailed)
         else Success(([IssuerNamespace("n", [IssuedItem(item, [])])], tape[2..]))
  {
    hide IssueItems, RefuseB;
    OneElementIssues(key, tape);
    var namespaces := OneElement(key).namespaces;
    assert namespaces[1..] == [] && IssueNamespaces(RefuseB, [], tape[2..]) == Success(([], tape[2..]));
    assert forall issued: IssuerNamespace :: [issued] + [] == [issued];
  }

  lemma {:induction false} OneElementIsPlanned(c: U64, tape: Tape)
    requires |tape| >= 2
    ensures PlanOne(RefuseB, c, OneElement("a"), tape).Success?
    ensures PlanOne(RefuseB, c, OneElement("a"), tape).value.1 == tape[2..]
    ensures PlanOne(RefuseB, c, OneElement("b"), tape) == Failure(EncodingFailed)
  {
    hide ItemInput, IssuerNamespacesOf, DigestIdNew;
    OneNamespaceIssues("a", tape);
    OneNamespaceIssues("b", tape);
    var item := IssuedItem(IssuerSignedItem(DigestIdNew(tape[0].asI32), tape[1].asSalt, "a", []), []);
    var push := Push(c, item.item.digestId, 0, SHA256, ItemInput(item), EMPTY_QUEUE);
    assert [item][1..] == [] && [IssuerNamespace("n", [item])][1..] == [];
    assert PlanItems(c, [], 1, SHA256, push.value.0, tape[2..]).Success?;
    assert PlanItems(c, [item], 0, SHA256, EMPTY_QUEUE, tape[2..])
        == AddFirst([push.value.1], PlanItems(c, [], 1, SHA256, push.value.0, tape[2..]));
    var planned := PlanNamespace(c, [item], SHA256, false, EMPTY_QUEUE, tape[2..]);
    assert planned.Success? && planned.value.tape == tape[2..];
    var issued := [IssuerNamespace("n", [item])];
    assert issued[0].items == [item];
    assert PlanNamespaces(c, [], SHA256, false, planned.value.queue, tape[2..]).Success?;
    assert PlanNamespaces(c, issued, SHA256, false, EMPTY_QUEUE, tape[2..])
        == AddFirst([PlannedNamespace("n", planned.value.out)],
                    PlanNamespaces(c, [], SHA256, false, planned.value.queue, tape[2..]));
    assert RefuseB(item.item) == Some([]);
    assert IssuerNamespacesOf(RefuseB, OneElement("a").namespaces, tape) == Success((issued, tape[2..]));
  }

  /** The second item's encoding error hides that the first could not be
      finished. */
  lemma {:induction false} ErrorsCanDiffer(hash: Hash, batchExecutor: Executor, singleExecutor: Executor)
    requires IsDigest(hash) && PermutesSerial(hash, batchExecutor) && PermutesSerial(hash, singleExecutor)
    ensures var items := [ValidatedItem(1, OneElement("a")), ValidatedItem(2, OneElement("b"))];
      && PrepareEach(RefuseB, singleExecutor, RefuseAll, items, FOUR_DRAWS) == Failure(Finishing)
      && PrepareItems(RefuseB, batchExecutor, RefuseAll, items, FOUR_DRAWS) == Failure(Planning(EncodingFailed))
  {
    hide PlanOne, OneElement, HashedPlan, IsDigest, PermutesSerial;
    var items := [ValidatedItem(1, OneElement("a")), ValidatedItem(2, OneElement("b"))];
    OneElementIsPlanned(1, FOUR_DRAWS);
    OneElementIsPlanned(2, FOUR_DRAWS[2..]);
    assert items[1..][0] == items[1];
    assert PlanAll(RefuseB, items[1..], FOUR_DRAWS[2..]) == Failure(EncodingFailed);
    SingleIsOneValue(hash, RefuseB, singleExecutor, RefuseAll, 1, items[0].inputs, FOUR_DRAWS);
    BatchIsBatchValue(hash, RefuseB, batchExecutor, RefuseAll, items, FOUR_DRAWS);
  }

  // ---------- What each map holds ----------

  /** A namespace's map: every real item's id goes to the hash of its tag-24
      encoding; the other ids, as many as drawn at the start of the span with
      decoys and none without, go to the hash of the 512 bytes drawn in the span
      right after that id. */
  ghost predicate MapIsExact(hash: Hash, span: Span, algorithm: DigestAlgorithm, decoys: bool, items: seq<IssuedItem>,
                             ids: DigestIds)
  {
    && (forall i :: 0 <= i < |items| ==>
          items[i].item.digestId in ids && ids[items[i].item.digestId] == hash(algorithm, ItemInput(items[i])))
    && (forall id :: id in ids && id !in DigestIdsOf(items) ==>
          exists input: seq<Byte> :: IsDecoy(span, id, input) && ids[id] == hash(algorithm, input))
    && |ids| - |items| == DecoysDrawn(span, decoys)
  }

  lemma {:induction false} NamespaceOfMeans(planned: seq<PlannedDigest>, hashes: seq<seq<Byte>>)
    requires |planned| <= |hashes| && NoDuplicates(DigestIdList(planned))
    ensures NamespaceOf(planned, hashes).Keys == Elements(DigestIdList(planned))
    ensures forall i :: 0 <= i < |planned| ==>
              planned[i].digestId in NamespaceOf(planned, hashes)
              && NamespaceOf(planned, hashes)[planned[i].digestId] == hashes[i]
  {
    if |planned| > 0 {
      assert DigestIdList(planned) == [planned[0].digestId] + DigestIdList(planned[1..]);
      NoDuplicatesCons(planned[0].digestId, DigestIdList(planned[1..]));
      NamespaceOfMeans(planned[1..], hashes[1..]);
      forall i | 0 <= i < |planned|
        ensures planned[i].digestId in NamespaceOf(planned, hashes)
        ensures NamespaceOf(planned, hashes)[planned[i].digestId] == hashes[i]
      {
        if i > 0 {
          assert planned[1..][i - 1] == planned[i] && hashes[1..][i - 1] == hashes[i];
        } else {
          assert planned[0].digestId !in NamespaceOf(planned[1..], hashes[1..]).Keys;
        }
      }
    }
  }

  lemma PlannedEntry(hash: Hash, span: Span, c: U64, algorithm: DigestAlgorithm, items: seq<IssuedItem>,
                     digests: seq<PlannedDigest>, jobs: seq<DigestJob>, start: nat, i: nat)
    requires i < |digests| && start + i < |jobs| && IsPlannedAt(span, c, algorithm, items, digests, jobs, start, i)
    ensures JobHashes(hash, jobs)[start..][i] == hash(algorithm, jobs[start + i].input)
    ensures if i < |items|
            then digests[i].digestId == items[i].item.digestId && jobs[start + i].input == ItemInput(items[i])
            else IsDecoy(span, digests[i].digestId, jobs[start + i].input)
  {
    hide ItemInput, IsDecoy;
  }

  lemma {:induction false} PlannedNamespaceIsExact(hash: Hash, span: Span, c: U64, algorithm: DigestAlgorithm,
                                                   decoys: bool, items: seq<IssuedItem>,
                                                   digests: seq<PlannedDigest>, jobs: seq<DigestJob>, start: nat)
    requires NamespaceIsPlanned(span, c, algorithm, decoys, items, digests, jobs, start) && DistinctIds(items)
    ensures MapIsExact(hash, span, algorithm, decoys, items, NamespaceOf(digests, JobHashes(hash, jobs)[start..]))
  {
    hide DistinctIds, ItemInput, NamespaceOf, NoDuplicates, IsPlannedAt, DigestIdsOf, DistinctDigestIds, JobHashes,
         IsDecoy;
    NamespaceIsSequential(span, c, algorithm, decoys, items, digests, jobs, start);
    var hashes := JobHashes(hash, jobs)[start..];
    var ids := NamespaceOf(digests, hashes);
    NamespaceOfMeans(digests, hashes);
    AsManyElements(DigestIdList(digests));
    assert |ids| == |ids.Keys| == |digests|;
    forall id | id in ids && id !in DigestIdsOf(items)
      ensures exists input: seq<Byte> :: IsDecoy(span, id, input) && ids[id] == hash(algorithm, input)
    {
      var i :| 0 <= i < |digests| && DigestIdList(digests)[i] == id;
      PlannedEntry(hash, span, c, algorithm, items, digests, jobs, start, i);
      if i < |items| {
        RealIdIsListed(items, i);
      }
    }
    forall i | 0 <= i < |items|
      ensures items[i].item.digestId in ids && ids[items[i].item.digestId] == hash(algorithm, ItemInput(items[i]))
    {
      PlannedEntry(hash, span, c, algorithm, items, digests, jobs, start, i);
    }
  }

  lemma RealIdIsListed(items: seq<IssuedItem>, i: nat)
    requires i < |items|
    ensures items[i].item.digestId in DigestIdsOf(items)
  {
  }

  lemma {:induction false} NamespacesAreExact(hash: Hash, tape: Tape, marks: seq<nat>, c: U64,
                                              algorithm: DigestAlgorithm, decoys: bool,
                                              namespaces: seq<IssuerNamespace>,
                                              planned: seq<PlannedNamespace>, jobs: seq<DigestJob>, start: nat)
    requires NamespacesArePlanned(tape, marks, c, algorithm, decoys, namespaces, planned, jobs, start)
    requires forall k :: 0 <= k < |namespaces| ==> DistinctIds(namespaces[k].items)
    requires forall i, j :: 0 <= i < j < |namespaces| ==> namespaces[i].name != namespaces[j].name
    ensures start + |AllDigests(planned)| == |jobs| && |marks| == |namespaces| + 1
    ensures var maps := NamespacesOf(planned, JobHashes(hash, jobs)[start..]);
      && maps.Keys == Elements(Names(planned))
      && forall k :: 0 <= k < |namespaces| ==>
           namespaces[k].name in maps
           && MapIsExact(hash, Span(tape, marks[k], marks[k + 1]), algorithm, decoys, namespaces[k].items,
                         maps[namespaces[k].name])
  {
    hide NamespaceIsPlanned, DistinctIds, MapIsExact, NamespaceOf, Elements, Names;
    PlannerIsSequential(tape, marks, c, algorithm, decoys, namespaces, planned, jobs, start);
    NamespacesOfNames(planned, JobHashes(hash, jobs)[start..]);
    if |namespaces| > 0 {
      var first := planned[0].digests;
      var hashes := JobHashes(hash, jobs)[start..];
      var maps := NamespacesOf(planned, hashes);
      PlannedNamespaceIsExact(hash, Span(tape, marks[0], marks[1]), c, algorithm, decoys, namespaces[0].items, first,
                              jobs, start);
      NamespacesAreExact(hash, tape, marks[1..], c, algorithm, decoys, namespaces[1..], planned[1..], jobs,
                         start + |first|);
      assert hashes[|first|..] == JobHashes(hash, jobs)[start + |first|..];
      var others := NamespacesOf(planned[1..], hashes[|first|..]);
      FirstNameIsFresh(planned, hashes[|first|..]);
      forall k | 0 <= k < |namespaces|
        ensures namespaces[k].name in maps
            && MapIsExact(hash, Span(tape, marks[k], marks[k + 1]), algorithm, decoys, namespaces[k].items,
                          maps[namespaces[k].name])
      {
        if k > 0 {
          assert namespaces[1..][k - 1] == namespaces[k];
          assert namespaces[k].name in others;
        } else {
          assert planned[0].name !in others;
        }
      }
    }
  }

  lemma {:induction false} NamespacesOfNames(planned: seq<PlannedNamespace>, hashes: seq<seq<Byte>>)
    requires |AllDigests(planned)| <= |hashes|
    ensures NamespacesOf(planned, hashes).Keys == Elements(Names(planned))
  {
    hide NamespaceOf;
    if |planned| > 0 {
      assert Names(planned) == [planned[0].name] + Names(planned[1..]);
      NoDuplicatesCons(planned[0].name, Names(planned[1..]));
      NamespacesOfNames(planned[1..], hashes[|planned[0].digests|..]);
    }
  }

  lemma {:induction false} FirstNameIsFresh(planned: seq<PlannedNamespace>, hashes: seq<seq<Byte>>)
    requires |planned| > 0 && |AllDigests(planned[1..])| <= |hashes|
    requires forall i, j :: 0 <= i < j < |planned| ==> planned[i].name != planned[j].name
    ensures planned[0].name !in NamespacesOf(planned[1..], hashes)
  {
    NamespacesOfNames(planned[1..], hashes);
    assert forall n :: 0 <= n < |planned[1..]| ==> planned[1..][n] == planned[n + 1];
  }

  lemma {:induction false} IssuingLeavesRest(encode: Encoder, namespaces: Namespaces, tape: Tape)
    requires IssuerNamespacesOf(encode, namespaces, tape).Success?
    ensures IsRestOf(IssuerNamespacesOf(encode, namespaces, tape).value.1, tape)
  {
    hide IssueNamespaces, IsRestOf;
    NamespacesLeaveRest(encode, namespaces, tape);
  }

  lemma SameNames(issued: seq<IssuerNamespace>, planned: seq<PlannedNamespace>)
    requires |planned| == |issued| && forall k :: 0 <= k < |planned| ==> planned[k].name == issued[k].name
    ensures Elements(Names(planned)) == set k | 0 <= k < |issued| :: issued[k].name
  {
    assert forall k :: 0 <= k < |issued| ==> Names(planned)[k] == issued[k].name;
  }

  /** What a preparation takes over from its inputs: their type, validity, key
      and algorithm, and a payload that is the finished mso's. */
  predicate CarriesInputs(finish: Finisher, inputs: Inputs, prepared: PreparedMdoc) {
    && prepared.docType == inputs.docType && prepared.mso.docType == inputs.docType
    && prepared.mso.validityInfo == inputs.validityInfo
    && prepared.mso.deviceKeyInfo == inputs.deviceKeyInfo
    && prepared.mso.digestAlgorithm == inputs.digestAlgorithm
    && finish(prepared.mso, inputs.signatureAlgorithm) == Some(prepared.signaturePayload)
  }

  /** Whatever the executor: a preparation's namespaces are the inputs' own, each
      element with its value, its encoding and the salt and first unused id drawn
      for it, end to end from the start of the tape; the rest is the inputs'. */
  lemma {:induction false} PreparedFromInputs(encode: Encoder, executor: Executor, finish: Finisher, inputs: Inputs,
                                              tape: Tape)
    returns (borders: seq<nat>)
    requires PrepareOne(encode, executor, finish, inputs, tape).Success?
    ensures var prepared := PrepareOne(encode, executor, finish, inputs, tape).value.0;
      var issuing := IssuerNamespacesOf(encode, inputs.namespaces, tape);
      && CarriesInputs(finish, inputs, prepared)
      && issuing.Success? && prepared.namespaces == issuing.value.0
      && NamespacesIssued(encode, tape, borders, inputs.namespaces, prepared.namespaces)
      && borders[0] == 0 && borders[|inputs.namespaces|] == |tape| - |issuing.value.1|
      && forall k :: 0 <= k < |inputs.namespaces| ==>
           && prepared.namespaces[k].name == inputs.namespaces[k].name
           && ItemsCarry(encode, inputs.namespaces[k].elements, prepared.namespaces[k].items)
  {
    hide Assemble, IssueNamespaces, NamespaceIssued, PlanNamespaces, ItemsCarry, DistinctIds;
    borders := IssuingMeans(encode, inputs.namespaces, tape, tape);
    IssuedNamespacesMatch(encode, inputs.namespaces, tape);
  }

  /** End to end: whatever order a lawful executor returns its results in, the
      namespaces hold the inputs' elements, and the mso's maps are exactly one per
      namespace, each as `MapIsExact` says of its own span; the spans lie end to
      end on the tape, from what issuing left to what preparing leaves. */
  lemma {:induction false} PreparedMapsAreExact(hash: Hash, encode: Encoder, executor: Executor, finish: Finisher,
                                                inputs: Inputs, tape: Tape)
    returns (borders: seq<nat>, marks: seq<nat>)
    requires IsDigest(hash) && PermutesSerial(hash, executor)
    requires PrepareOne(encode, executor, finish, inputs, tape).Success?
    ensures var (prepared, rest) := PrepareOne(encode, executor, finish, inputs, tape).value;
      var maps := prepared.mso.valueDigests;
      && CarriesInputs(finish, inputs, prepared)
      && NamespacesIssued(encode, tape, borders, inputs.namespaces, prepared.namespaces) && borders[0] == 0
      && (forall k :: 0 <= k < |inputs.namespaces| ==>
            ItemsCarry(encode, inputs.namespaces[k].elements, prepared.namespaces[k].items))
      && |marks| == |prepared.namespaces| + 1
      && marks[0] == borders[|inputs.namespaces|] && marks[|marks| - 1] == |tape| - |rest|
      && maps.Keys == (set k | 0 <= k < |prepared.namespaces| :: prepared.namespaces[k].name)
      && forall k :: 0 <= k < |prepared.namespaces| ==>
           && prepared.namespaces[k].name == inputs.namespaces[k].name
           && prepared.namespaces[k].name in maps
           && MapIsExact(hash, Span(tape, marks[k], marks[k + 1]), inputs.digestAlgorithm, inputs.enableDecoyDigests,
                         prepared.namespaces[k].items, maps[prepared.namespaces[k].name])
  {
    hide IsDigest, PermutesSerial, PrepareOne, MapIsExact, Sequential, NamespacesArePlanned, DistinctIds, NamespacesOf,
         IssuerNamespacesOf, PlanNamespaces, AllDigests, IsRestOf, NamespaceIssued, ItemsCarry, CarriesInputs;
    borders := PreparedFromInputs(encode, executor, finish, inputs, tape);
    var algorithm, decoys := inputs.digestAlgorithm, inputs.enableDecoyDigests;
    SingleIsOneValue(hash, encode, executor, finish, MDOC_CREDENTIAL_ID, inputs, tape);
    var (issued, t1) := IssuerNamespacesOf(encode, inputs.namespaces, tape).value;
    var (plan, t2) := PlanOf(MDOC_CREDENTIAL_ID, issued, algorithm, decoys, t1).value;
    IssuedNamesDiffer(encode, inputs.namespaces, tape);
    IssuingLeavesRest(encode, inputs.namespaces, tape);
    marks := PlanIsWellFormed(MDOC_CREDENTIAL_ID, issued, algorithm, decoys, t1, tape);
    NamespacesAreExact(hash, tape, marks, MDOC_CREDENTIAL_ID, algorithm, decoys, issued, plan.namespaces, plan.jobs, 0);
    assert JobHashes(hash, plan.jobs)[0..] == JobHashes(hash, plan.jobs);
    var prepared := PrepareOne(encode, executor, finish, inputs, tape).value.0;
    assert PlanOne(encode, MDOC_CREDENTIAL_ID, inputs, tape).value == ((issued, plan), t2);
    assert prepared.namespaces == issued;
    PlannerIsSequential(tape, marks, MDOC_CREDENTIAL_ID, algorithm, decoys, issued, plan.namespaces, plan.jobs, 0);
    SameNames(issued, plan.namespaces);
    assert prepared.mso.valueDigests == NamespacesOf(plan.namespaces, JobHashes(hash, plan.jobs));
  }
}
