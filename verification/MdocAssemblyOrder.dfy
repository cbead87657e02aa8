/** Result order does not matter, and the fast ordered path agrees with the path
    for any order (src/issuance/mdoc.rs). */
module MdocAssemblyOrder {
  import opened Fips180
  import opened DigestTypes
  import opened MdocPlanning
  import opened MdocDigestPlan
  import opened MdocAssembly
  import opened MdocAssemblyExact
  import opened Distinctness

  // ---------- Permuted results ----------

  lemma SameIdentitySets(xs: seq<DigestResult>, ys: seq<DigestResult>)
    requires multiset(xs) == multiset(ys)
    ensures Elements(ResultIdentities(xs)) <= Elements(ResultIdentities(ys))
  {
    forall x | x in Elements(ResultIdentities(xs))
      ensures x in Elements(ResultIdentities(ys))
    {
      var i :| 0 <= i < |xs| && ResultIdentities(xs)[i] == x;
      assert xs[i] in multiset(xs) && xs[i] in ys;
      var j :| 0 <= j < |ys| && ys[j] == xs[i];
      assert ResultIdentities(ys)[j] == x;
    }
  }

  lemma {:induction false} SameByIdentity(xs: seq<DigestResult>, ys: seq<DigestResult>)
    requires multiset(xs) == multiset(ys)
    ensures NoDuplicates(ResultIdentities(xs)) <==> NoDuplicates(ResultIdentities(ys))
    ensures NoDuplicates(ResultIdentities(xs)) ==> ByIdentity(xs) == ByIdentity(ys)
  {
    hide NoDuplicates, ByIdentity;
    assert |xs| == |multiset(xs)| == |multiset(ys)| == |ys|;
    SameIdentitySets(xs, ys);
    SameIdentitySets(ys, xs);
    SameElementsSameDistinctness(ResultIdentities(xs), ResultIdentities(ys));
    if NoDuplicates(ResultIdentities(xs)) {
      ByIdentityMeans(xs);
      ByIdentityMeans(ys);
      forall x | x in ByIdentity(xs)
        ensures ByIdentity(xs)[x] == ByIdentity(ys)[x]
      {
        var i :| 0 <= i < |xs| && ResultIdentities(xs)[i] == x;
        assert xs[i] in multiset(xs) && xs[i] in ys;
        var j :| 0 <= j < |ys| && ys[j] == xs[i];
        assert ByIdentity(ys)[ResultIdentity(ys[j])] == ys[j];
      }
    }
  }

  /** Any permutation of the results gives the same value or the same error. */
  lemma PermutationDoesNotMatter(plans: seq<DigestPlan>, xs: seq<DigestResult>, ys: seq<DigestResult>)
    requires multiset(xs) == multiset(ys)
    ensures AssembleBatches(plans, xs) == AssembleBatches(plans, ys)
  {
    hide NoDuplicates, ByIdentity, AssemblePlans;
    SameByIdentity(xs, ys);
  }

  // ---------- When the ordered path succeeds ----------

  function Advance(at: Cursor, n: nat): Cursor
    requires n <= |at.jobs| && n <= |at.results|
  {
    Cursor(at.jobs[n..], at.results[n..], at.expectedJobId + n)
  }

  predicate StepAt(credentialId: U64, digest: PlannedDigest, job: DigestJob, result: DigestResult, jobId: nat) {
    && job.credentialId == credentialId && job.jobId == jobId
    && DigestIdentity(digest) == JobIdentity(job) == ResultIdentity(result)
    && result.ordinal == job.ordinal
  }

  /** Planned digests, jobs and results march together, job ids counting up. */
  ghost predicate InStep(credentialId: U64, digests: seq<PlannedDigest>, at: Cursor) {
    && |digests| <= |at.jobs| && |digests| <= |at.results|
    && forall i :: 0 <= i < |digests| ==>
         StepAt(credentialId, digests[i], at.jobs[i], at.results[i], at.expectedJobId + i)
  }

  ghost predicate LengthsFit(n: nat, at: Cursor)
    requires n <= |at.jobs| && n <= |at.results|
  {
    forall i :: 0 <= i < n ==> |at.results[i].digest| == DigestLength(at.jobs[i].algorithm)
  }

  ghost predicate Carries(digests: Taken, planned: seq<PlannedDigest>, at: Cursor) {
    && |planned| <= |at.results|
    && forall i :: 0 <= i < |planned| ==> DigestOf(digests, DigestIdentity(planned[i])) == at.results[i].digest
  }

  lemma InStepSplits(credentialId: U64, a: seq<PlannedDigest>, b: seq<PlannedDigest>, at: Cursor, digests: Taken)
    requires InStep(credentialId, a, at)
    ensures var next := Advance(at, |a|);
      && (InStep(credentialId, a + b, at) <==> InStep(credentialId, b, next))
      && (InStep(credentialId, a + b, at) ==>
            (LengthsFit(|a + b|, at) <==> LengthsFit(|a|, at) && LengthsFit(|b|, next))
            && Advance(next, |b|) == Advance(at, |a + b|)
            && (Carries(digests, a + b, at) ==> Carries(digests, a, at) && Carries(digests, b, next)))
  {
    hide StepAt, DigestLength, DigestOf;
    var next, both := Advance(at, |a|), a + b;
    assert forall i :: 0 <= i < |a| ==> both[i] == a[i];
    assert forall i :: 0 <= i < |b| ==> both[|a| + i] == b[i];
    assert forall i :: |a| <= i < |both| ==> both[i] == b[i - |a|];
    assert forall i :: 0 <= i < |next.jobs| ==> next.jobs[i] == at.jobs[|a| + i];
    assert forall i :: 0 <= i < |next.results| ==> next.results[i] == at.results[|a| + i];
    assert forall i :: |a| <= i < |at.jobs| ==> at.jobs[i] == next.jobs[i - |a|];
    assert forall i :: |a| <= i < |at.results| ==> at.results[i] == next.results[i - |a|];
  }

  lemma InStepPrefix(credentialId: U64, a: seq<PlannedDigest>, b: seq<PlannedDigest>, at: Cursor)
    requires InStep(credentialId, a + b, at)
    ensures InStep(credentialId, a, at)
  {
    hide StepAt;
    assert forall i :: 0 <= i < |a| ==> (a + b)[i] == a[i];
  }

  lemma FirstInStep(credentialId: U64, planned: seq<PlannedDigest>, at: Cursor, digests: Taken)
    requires |planned| > 0
    ensures InStep(credentialId, planned, at) ==>
              |at.jobs| > 0 && |at.results| > 0
              && StepAt(credentialId, planned[0], at.jobs[0], at.results[0], at.expectedJobId)
    ensures && |at.jobs| > 0 && |at.results| > 0
            && StepAt(credentialId, planned[0], at.jobs[0], at.results[0], at.expectedJobId)
         ==>
              && InStep(credentialId, [planned[0]], at)
              && (LengthsFit(1, at) <==> |at.results[0].digest| == DigestLength(at.jobs[0].algorithm))
    ensures Carries(digests, planned, at) ==> DigestOf(digests, DigestIdentity(planned[0])) == at.results[0].digest
  {
    hide DigestOf, DigestLength;
  }

  lemma {:induction false} NothingIsOrderedYet(credentialId: U64, planned: seq<PlannedDigest>, at: Cursor,
                                               ids: DigestIds)
    requires |planned| == 0
    ensures InStep(credentialId, planned, at) && LengthsFit(0, at) && Advance(at, 0) == at
    ensures NoDuplicates(DigestIdList(planned)) && Elements(DigestIdList(planned)) !! ids.Keys
    ensures forall digests :: ids + NamespaceMap(planned, digests) == ids
  {
  }

  lemma {:induction false} OrderedNamespaceExactly(credentialId: U64, planned: seq<PlannedDigest>, at: Cursor,
                                                   ids: DigestIds, digests: Taken)
    requires at.expectedJobId < TWO_64
    ensures OrderedNamespace(credentialId, planned, at, ids).Success?
       <==> && InStep(credentialId, planned, at) && LengthsFit(|planned|, at)
            && NoDuplicates(DigestIdList(planned)) && Elements(DigestIdList(planned)) !! ids.Keys
            && at.expectedJobId + |planned| < TWO_64
    ensures OrderedNamespace(credentialId, planned, at, ids).Success? ==>
              && OrderedNamespace(credentialId, planned, at, ids).value.0 == Advance(at, |planned|)
              && (Carries(digests, planned, at) ==>
                    OrderedNamespace(credentialId, planned, at, ids).value.1 == ids + NamespaceMap(planned, digests))
    ensures && InStep(credentialId, planned, at)
            && NoDuplicates(DigestIdList(planned)) && Elements(DigestIdList(planned)) !! ids.Keys
            && at.expectedJobId + |planned| < TWO_64
            && OrderedNamespace(credentialId, planned, at, ids).Failure?
         ==> OrderedNamespace(credentialId, planned, at, ids).error == InvalidLength
  {
    hide NoDuplicates, Elements, DigestOf, InStep, LengthsFit, Carries, DigestLength, DigestIdList;
    if |planned| == 0 {
      NothingIsOrderedYet(credentialId, planned, at, ids);
    } else {
      var digest, others := planned[0], planned[1..];
      assert planned == [digest] + others;
      assert DigestIdList(planned) == [digest.digestId] + DigestIdList(others);
      NoDuplicatesCons(digest.digestId, DigestIdList(others));
      FirstInStep(credentialId, planned, at, digests);
      if |at.jobs| > 0 && |at.results| > 0
          && StepAt(credentialId, digest, at.jobs[0], at.results[0], at.expectedJobId) {
        InStepSplits(credentialId, [digest], others, at, digests);
        if LengthsFit(1, at) && digest.digestId !in ids && at.expectedJobId + 1 < TWO_64 {
          var more := ids[digest.digestId := at.results[0].digest];
          OrderedNamespaceExactly(credentialId, others, Advance(at, 1), more, digests);
          AddThenMerge(ids, digest.digestId, at.results[0].digest, NamespaceMap(others, digests));
        }
      }
    }
  }

  ghost predicate NamesAreFree(namespaces: seq<PlannedNamespace>, filled: NamespaceDigests) {
    NoDuplicates(Names(namespaces)) && Elements(Names(namespaces)) !! filled.Keys
  }

  lemma NamesSplit(namespaces: seq<PlannedNamespace>, filled: NamespaceDigests, ids: DigestIds)
    requires |namespaces| > 0
    ensures NamesAreFree(namespaces, filled)
       <==> namespaces[0].name !in filled && NamesAreFree(namespaces[1..], filled[namespaces[0].name := ids])
  {
    assert Names(namespaces) == [namespaces[0].name] + Names(namespaces[1..]);
    NoDuplicatesCons(namespaces[0].name, Names(namespaces[1..]));
  }

  lemma {:induction false} OrderedNamespacesExactly(credentialId: U64, namespaces: seq<PlannedNamespace>, at: Cursor,
                                                    filled: NamespaceDigests, digests: Taken)
    requires at.expectedJobId < TWO_64
    ensures var all := AllDigests(namespaces);
      OrderedNamespaces(credentialId, namespaces, at, filled).Success?
      <==> && InStep(credentialId, all, at) && LengthsFit(|all|, at)
           && DigestIdsDiffer(namespaces) && NamesAreFree(namespaces, filled)
           && at.expectedJobId + |all| < TWO_64
    ensures var all := AllDigests(namespaces);
      OrderedNamespaces(credentialId, namespaces, at, filled).Success? ==>
        && OrderedNamespaces(credentialId, namespaces, at, filled).value.0 == Advance(at, |all|)
        && (Carries(digests, all, at) ==>
              OrderedNamespaces(credentialId, namespaces, at, filled).value.1 == filled + PlanMap(namespaces, digests))
    ensures var all := AllDigests(namespaces);
      && InStep(credentialId, all, at)
      && DigestIdsDiffer(namespaces) && NamesAreFree(namespaces, filled)
      && at.expectedJobId + |all| < TWO_64
      && OrderedNamespaces(credentialId, namespaces, at, filled).Failure?
      ==> OrderedNamespaces(credentialId, namespaces, at, filled).error == InvalidLength
  {
    hide NoDuplicates, Elements, InStep, LengthsFit, Carries, OrderedNamespace, NamespaceMap, DigestIdsDiffer,
         NamesAreFree;
    if |namespaces| == 0 {
      NothingIsOrdered(credentialId, namespaces, at, filled, digests);
    } else {
      var first, others := namespaces[0].digests, namespaces[1..];
      var all := AllDigests(others);
      OrderedNamespaceExactly(credentialId, first, at, map[], digests);
      assert map[] + NamespaceMap(first, digests) == NamespaceMap(first, digests);
      DifferSplits(namespaces);
      assert Elements(DigestIdList(first)) !! {};
      if InStep(credentialId, first + all, at) {
        InStepPrefix(credentialId, first, all, at);
      }
      if InStep(credentialId, first, at) {
        StepBounds(credentialId, first, at);
        InStepSplits(credentialId, first, all, at, digests);
        if OrderedNamespace(credentialId, first, at, map[]).Success? {
          var ids := OrderedNamespace(credentialId, first, at, map[]).value.1;
          NamesSplit(namespaces, filled, ids);
          OrderedNamespacesExactly(credentialId, others, Advance(at, |first|), filled[namespaces[0].name := ids],
                                   digests);
          AddThenMerge(filled, namespaces[0].name, ids, PlanMap(others, digests));
        }
      }
    }
  }

  lemma {:induction false} NothingIsOrdered(credentialId: U64, namespaces: seq<PlannedNamespace>, at: Cursor,
                                            filled: NamespaceDigests, digests: Taken)
    requires |namespaces| == 0
    ensures InStep(credentialId, AllDigests(namespaces), at) && LengthsFit(0, at)
    ensures DigestIdsDiffer(namespaces) && NamesAreFree(namespaces, filled)
    ensures Advance(at, 0) == at && filled + PlanMap(namespaces, digests) == filled
  {
  }

  /** The ordered path succeeds exactly on plans whose jobs are 0, 1, 2, ... in
      the order the planned digests name them, with results in that same order. */
  lemma {:induction false} OrderedSucceedsExactly(plan: DigestPlan, results: seq<DigestResult>, digests: Taken)
    ensures var (all, at) := (AllDigests(plan.namespaces), Cursor(plan.jobs, results, 0));
      AssembleOrdered(plan, results).Success?
      <==> && InStep(plan.credentialId, all, at) && LengthsFit(|all|, at)
           && DigestIdsDiffer(plan.namespaces) && NoDuplicates(Names(plan.namespaces))
           && |all| == |plan.jobs| == |results| && |all| < TWO_64
    ensures && AssembleOrdered(plan, results).Success?
            && Carries(digests, AllDigests(plan.namespaces), Cursor(plan.jobs, results, 0))
         ==> AssembleOrdered(plan, results).value == PlanMap(plan.namespaces, digests)
  {
    hide NoDuplicates, InStep, LengthsFit, Carries, OrderedNamespaces, PlanMap, DigestIdsDiffer, AllDigests;
    OrderedNamespacesExactly(plan.credentialId, plan.namespaces, Cursor(plan.jobs, results, 0), map[], digests);
    assert Elements(Names(plan.namespaces)) !! {};
    assert map[] + PlanMap(plan.namespaces, digests) == PlanMap(plan.namespaces, digests);
    assert InStep(plan.credentialId, AllDigests(plan.namespaces), Cursor(plan.jobs, results, 0))
       ==> |AllDigests(plan.namespaces)| <= |plan.jobs| && |AllDigests(plan.namespaces)| <= |results| by {
      StepBounds(plan.credentialId, AllDigests(plan.namespaces), Cursor(plan.jobs, results, 0));
    }
  }

  lemma StepBounds(credentialId: U64, planned: seq<PlannedDigest>, at: Cursor)
    ensures InStep(credentialId, planned, at) ==> |planned| <= |at.jobs| && |planned| <= |at.results|
  {
  }

  lemma CountingUpIsDistinct(credentialId: U64, planned: seq<PlannedDigest>, jobs: seq<DigestJob>,
                             results: seq<DigestResult>)
    requires InStep(credentialId, planned, Cursor(jobs, results, 0))
    requires |planned| == |jobs| == |results|
    ensures JobsAreOwn(credentialId, jobs) && DigestsAreOwn(credentialId, planned)
    ensures NoDuplicates(JobIdentities(jobs))
    ensures DigestIdentities(planned) == JobIdentities(jobs) == ResultIdentities(results)
  {
    var at := Cursor(jobs, results, 0);
    forall i | 0 <= i < |jobs|
      ensures jobs[i].credentialId == credentialId && jobs[i].jobId == i
      ensures DigestIdentity(planned[i]) == JobIdentity(jobs[i]) == ResultIdentity(results[i])
    {
      assert StepAt(credentialId, planned[i], at.jobs[i], at.results[i], at.expectedJobId + i);
    }
    forall i, j | 0 <= i < j < |jobs|
      ensures JobIdentities(jobs)[i] != JobIdentities(jobs)[j]
    {
      assert jobs[i].jobId == i && jobs[j].jobId == j;
    }
  }

  /** For any plan at all: when the ordered path succeeds, so does the path for
      any order, with the same map. */
  lemma OrderedImpliesReordered(plan: DigestPlan, results: seq<DigestResult>)
    requires AssembleOrdered(plan, results).Success?
    ensures AssembleReordered(plan, results) == AssembleOrdered(plan, results)
  {
    hide NoDuplicates, Elements, Carries, AssembleOrdered, AssembleBatches, PlanMap, DigestIdsDiffer, AllDigests,
         ByIdentity, InStep, LengthsFit;
    var all := AllDigests(plan.namespaces);
    OrderedSucceedsExactly(plan, results, DigestMap(ByIdentity(results)));
    CountingUpIsDistinct(plan.credentialId, all, plan.jobs, results);
    assert WellFormed(plan);
    InOrderAnswers(plan, results);
    NoDuplicatesSingle([plan]);
    BatchSucceedsExactly([plan], results);
    ResultsCarry(plan.credentialId, all, plan.jobs, results);
  }

  lemma NoDuplicatesSingle(plans: seq<DigestPlan>)
    requires |plans| == 1
    ensures NoDuplicates(CredentialIds(plans))
  {
  }

  lemma FitsInStep(credentialId: U64, planned: seq<PlannedDigest>, at: Cursor, i: nat)
    requires InStep(credentialId, planned, at) && LengthsFit(|planned|, at) && i < |planned|
    ensures ResultIdentity(at.results[i]) == JobIdentity(at.jobs[i]) && Fits(at.results[i], at.jobs[i])
  {
    assert StepAt(credentialId, planned[i], at.jobs[i], at.results[i], at.expectedJobId + i);
  }

  lemma InOrderAnswers(plan: DigestPlan, results: seq<DigestResult>)
    requires |plan.jobs| == |results|
    requires InStep(plan.credentialId, AllDigests(plan.namespaces), Cursor(plan.jobs, results, 0))
    requires |AllDigests(plan.namespaces)| == |results| && LengthsFit(|results|, Cursor(plan.jobs, results, 0))
    requires NoDuplicates(ResultIdentities(results)) && ResultIdentities(results) == JobIdentities(plan.jobs)
    ensures ResultsAnswer([plan], results)
  {
    hide NoDuplicates, Elements, AllDigests, Fits, ByIdentity, PlannedIdentities, ResultsAnswer, InStep, LengthsFit;
    var available, at := ByIdentity(results), Cursor(plan.jobs, results, 0);
    ByIdentityMeans(results);
    forall i | 0 <= i < |plan.jobs|
      ensures JobIdentity(plan.jobs[i]) in available && Fits(available[JobIdentity(plan.jobs[i])], plan.jobs[i])
    {
      FitsInStep(plan.credentialId, AllDigests(plan.namespaces), at, i);
      assert ResultIdentity(results[i]) in available;
    }
    assert [plan][1..] == [];
    PlannedFirst([plan]);
    NothingPlanned([]);
    AnswersMean([plan], results);
  }

  lemma {:induction false} ResultsCarry(credentialId: U64, planned: seq<PlannedDigest>, jobs: seq<DigestJob>,
                                        results: seq<DigestResult>)
    requires InStep(credentialId, planned, Cursor(jobs, results, 0))
    requires |planned| == |jobs| == |results| && NoDuplicates(ResultIdentities(results))
    ensures Carries(DigestMap(ByIdentity(results)), planned, Cursor(jobs, results, 0))
  {
    hide NoDuplicates, ByIdentity;
    ByIdentityMeans(results);
    CountingUpIsDistinct(credentialId, planned, jobs, results);
    forall i | 0 <= i < |planned|
      ensures DigestOf(DigestMap(ByIdentity(results)), DigestIdentity(planned[i])) == results[i].digest
    {
      assert DigestIdentities(planned)[i] == ResultIdentities(results)[i];
    }
  }

  // ---------- Planner plans ----------

  /** Jobs 0, 1, 2, ... in the order the planned digests name them. */
  ghost predicate Sequential(plan: DigestPlan) {
    var all := AllDigests(plan.namespaces);
    && |all| == |plan.jobs| < TWO_64
    && DigestIdsDiffer(plan.namespaces)
    && NoDuplicates(Names(plan.namespaces))
    && forall i :: 0 <= i < |all| ==> SequentialAt(plan.credentialId, all[i], plan.jobs[i], i)
  }

  predicate SequentialAt(credentialId: U64, digest: PlannedDigest, job: DigestJob, jobId: nat) {
    job.credentialId == credentialId && job.jobId == jobId && DigestIdentity(digest) == JobIdentity(job)
  }

  lemma SequentialInStep(plan: DigestPlan, results: seq<DigestResult>)
    requires Sequential(plan) && ResultsFollowPlanOrder(plan, results)
    ensures InStep(plan.credentialId, AllDigests(plan.namespaces), Cursor(plan.jobs, results, 0))
  {
    hide NoDuplicates, DigestIdsDiffer, AllDigests;
    var all, at := AllDigests(plan.namespaces), Cursor(plan.jobs, results, 0);
    forall i | 0 <= i < |all|
      ensures StepAt(plan.credentialId, all[i], at.jobs[i], at.results[i], at.expectedJobId + i)
    {
      assert SequentialAt(plan.credentialId, all[i], plan.jobs[i], i);
    }
  }

  lemma {:induction false} TakeFailsOnLength(credentialId: U64, jobs: seq<DigestJob>, available: Available,
                                             taken: Taken)
    requires JobsAreOwn(credentialId, jobs) && NoDuplicates(JobIdentities(jobs))
    requires Elements(JobIdentities(jobs)) !! taken.Keys
    requires forall i :: 0 <= i < |jobs| ==>
               && JobIdentity(jobs[i]) in available
               && available[JobIdentity(jobs[i])].ordinal == jobs[i].ordinal
    ensures var r := TakeJobs(credentialId, jobs, available, taken); r.Failure? ==> r.error == InvalidLength
  {
    hide NoDuplicates, Elements;
    if |jobs| > 0 {
      var identity, others := JobIdentity(jobs[0]), jobs[1..];
      assert JobIdentities(jobs) == [identity] + JobIdentities(others);
      NoDuplicatesCons(identity, JobIdentities(others));
      ElementsAt(JobIdentities(others));
      assert forall i :: 0 <= i < |others| ==> others[i] == jobs[i + 1] && JobIdentities(others)[i] != identity;
      if |available[identity].digest| == DigestLength(jobs[0].algorithm) {
        TakeFailsOnLength(credentialId, others, available - {identity}, taken[identity := available[identity].digest]);
      }
    }
  }

  lemma InOrderFailures(plan: DigestPlan, results: seq<DigestResult>)
    requires Sequential(plan) && ResultsFollowPlanOrder(plan, results)
    requires !LengthsFit(|results|, Cursor(plan.jobs, results, 0))
    ensures AssembleOrdered(plan, results) == Failure(InvalidLength)
    ensures AssembleReordered(plan, results) == Failure(InvalidLength)
  {
    hide NoDuplicates, Elements, Carries, PlanMap, DigestIdsDiffer, AllDigests, ByIdentity, InStep, OrderedNamespaces,
         FillNamespaces, TakeJobs;
    var all, at := AllDigests(plan.namespaces), Cursor(plan.jobs, results, 0);
    SequentialInStep(plan, results);
    OrderedNamespacesExactly(plan.credentialId, plan.namespaces, at, map[], map[]);
    assert Elements(Names(plan.namespaces)) !! {};
    CountingUpIsDistinct(plan.credentialId, all, plan.jobs, results);
    ByIdentityMeans(results);
    var available := ByIdentity(results);
    assert forall i :: 0 <= i < |results| ==> available[ResultIdentity(results[i])] == results[i];
    assert Elements(JobIdentities(plan.jobs)) !! {};
    TakeFailsOnLength(plan.credentialId, plan.jobs, available, map[]);
    TakeJobsExactly(plan.credentialId, plan.jobs, available, map[]);
    var i :| 0 <= i < |results| && |results[i].digest| != DigestLength(plan.jobs[i].algorithm);
    assert !Fits(available[JobIdentity(plan.jobs[i])], plan.jobs[i]);
    assert !Answered(plan.jobs, available);
    assert AssemblePlan(plan, available) == Failure(InvalidLength);
    assert [plan][0] == plan;
  }

  lemma SequentialPathsAgree(plan: DigestPlan, results: seq<DigestResult>)
    requires Sequential(plan)
    ensures Assemble(plan, results) == AssembleReordered(plan, results)
  {
    hide NoDuplicates, AssembleOrdered, AssembleReordered, DigestIdsDiffer, AllDigests, InStep;
    if ResultsFollowPlanOrder(plan, results) {
      SequentialInStep(plan, results);
      if LengthsFit(|results|, Cursor(plan.jobs, results, 0)) {
        OrderedSucceedsExactly(plan, results, map[]);
        OrderedImpliesReordered(plan, results);
      } else {
        InOrderFailures(plan, results);
      }
    }
  }

  lemma {:induction false} PlannerIsSequential(tape: Tape, marks: seq<nat>, credentialId: U64,
                                               algorithm: DigestAlgorithm, decoys: bool,
                                               namespaces: seq<IssuerNamespace>,
                                               planned: seq<PlannedNamespace>, jobs: seq<DigestJob>, start: nat)
    requires NamespacesArePlanned(tape, marks, credentialId, algorithm, decoys, namespaces, planned, jobs, start)
    requires forall k :: 0 <= k < |namespaces| ==> DistinctIds(namespaces[k].items)
    ensures |planned| == |namespaces| && forall k :: 0 <= k < |planned| ==> planned[k].name == namespaces[k].name
    ensures start + |AllDigests(planned)| == |jobs|
    ensures DigestIdsDiffer(planned)
    ensures forall k :: start <= k < |jobs| ==> SequentialAt(credentialId, AllDigests(planned)[k - start], jobs[k], k)
  {
    hide NoDuplicates, DistinctIds, SequentialAt;
    if |namespaces| > 0 {
      var first, next := planned[0].digests, start + |planned[0].digests|;
      NamespaceIsSequential(Span(tape, marks[0], marks[1]), credentialId, algorithm, decoys, namespaces[0].items, first,
                            jobs, start);
      PlannerIsSequential(tape, marks[1..], credentialId, algorithm, decoys, namespaces[1..], planned[1..], jobs, next);
      DifferSplits(planned);
      forall k | start <= k < |jobs|
        ensures SequentialAt(credentialId, AllDigests(planned)[k - start], jobs[k], k)
      {
        if k < next {
          assert AllDigests(planned)[k - start] == first[k - start];
        } else {
          assert AllDigests(planned)[k - start] == AllDigests(planned[1..])[k - next];
        }
      }
    }
  }

  lemma NamespaceIsSequential(span: Span, credentialId: U64, algorithm: DigestAlgorithm, decoys: bool,
                              items: seq<IssuedItem>,
                              digests: seq<PlannedDigest>, jobs: seq<DigestJob>, start: nat)
    requires NamespaceIsPlanned(span, credentialId, algorithm, decoys, items, digests, jobs, start)
        && DistinctIds(items)
    ensures NoDuplicates(DigestIdList(digests))
    ensures forall k :: start <= k < start + |digests| ==> SequentialAt(credentialId, digests[k - start], jobs[k], k)
  {
    hide DistinctIds, ItemInput, IsDecoy;
    forall k | start <= k < start + |digests|
      ensures SequentialAt(credentialId, digests[k - start], jobs[k], k)
    {
      assert IsPlannedAt(span, credentialId, algorithm, items, digests, jobs, start, k - start);
    }
  }

  /** A plan made by the planner from issued namespaces of different names. */
  ghost predicate IsPlannerPlan(plan: DigestPlan, namespaces: seq<IssuerNamespace>, algorithm: DigestAlgorithm,
                                decoys: bool, tape: Tape)
  {
    && (forall k :: 0 <= k < |namespaces| ==> DistinctIds(namespaces[k].items))
    && (forall i, j :: 0 <= i < j < |namespaces| ==> namespaces[i].name != namespaces[j].name)
    && PlanOf(plan.credentialId, namespaces, algorithm, decoys, tape).Success?
    && PlanOf(plan.credentialId, namespaces, algorithm, decoys, tape).value.0 == plan
  }

  lemma PlannerPlanIsSequential(plan: DigestPlan, namespaces: seq<IssuerNamespace>, algorithm: DigestAlgorithm,
                                decoys: bool, tape: Tape)
    requires IsPlannerPlan(plan, namespaces, algorithm, decoys, tape)
    ensures Sequential(plan)
  {
    hide PlanOf, NamespacesArePlanned, DistinctIds, DigestIdsDiffer;
    var marks := PlanIsWellFormed(plan.credentialId, namespaces, algorithm, decoys, tape, tape);
    PlannerIsSequential(tape, marks, plan.credentialId, algorithm, decoys, namespaces, plan.namespaces, plan.jobs, 0);
    var all := AllDigests(plan.namespaces);
    assert forall i :: 0 <= i < |all| ==> SequentialAt(plan.credentialId, all[i - 0], plan.jobs[i], i);
  }

  lemma SequentialIsWellFormed(plan: DigestPlan)
    requires Sequential(plan)
    ensures WellFormed(plan)
  {
    hide DigestIdsDiffer, AllDigests;
    var all := AllDigests(plan.namespaces);
    forall i | 0 <= i < |all|
      ensures SequentialAt(plan.credentialId, all[i], plan.jobs[i], i)
    {
    }
    assert DigestIdentities(all) == JobIdentities(plan.jobs);
    forall i, j | 0 <= i < j < |plan.jobs|
      ensures JobIdentities(plan.jobs)[i] != JobIdentities(plan.jobs)[j]
    {
      assert plan.jobs[i].jobId == i && plan.jobs[j].jobId == j;
    }
  }

  /** For every plan the planner makes and every result vector, the routine that
      picks a path gives what the any-order path gives, value or error. */
  lemma AssemblyPathsAgree(plan: DigestPlan, namespaces: seq<IssuerNamespace>, algorithm: DigestAlgorithm, decoys: bool,
                           tape: Tape,
                           results: seq<DigestResult>)
    requires IsPlannerPlan(plan, namespaces, algorithm, decoys, tape)
    ensures Assemble(plan, results) == AssembleReordered(plan, results)
  {
    hide Sequential, IsPlannerPlan;
    PlannerPlanIsSequential(plan, namespaces, algorithm, decoys, tape);
    SequentialPathsAgree(plan, results);
  }

  /** So for such a plan the executor's result order is invisible. */
  lemma ResultOrderIsInvisible(plan: DigestPlan, namespaces: seq<IssuerNamespace>, algorithm: DigestAlgorithm,
                               decoys: bool, tape: Tape,
                               xs: seq<DigestResult>, ys: seq<DigestResult>)
    requires IsPlannerPlan(plan, namespaces, algorithm, decoys, tape)
    requires multiset(xs) == multiset(ys)
    ensures Assemble(plan, xs) == Assemble(plan, ys)
  {
    hide Sequential, IsPlannerPlan, Assemble, AssembleBatches;
    AssemblyPathsAgree(plan, namespaces, algorithm, decoys, tape, xs);
    AssemblyPathsAgree(plan, namespaces, algorithm, decoys, tape, ys);
    PermutationDoesNotMatter([plan], xs, ys);
  }

  // ---------- Exactly when the paths agree ----------

  /** The ordered path accepts no plan but a sequential one. */
  lemma OrderedNeedsSequential(plan: DigestPlan, results: seq<DigestResult>)
    requires AssembleOrdered(plan, results).Success?
    ensures Sequential(plan)
  {
    hide NoDuplicates, AssembleOrdered, DigestIdsDiffer, AllDigests;
    var all, at := AllDigests(plan.namespaces), Cursor(plan.jobs, results, 0);
    OrderedSucceedsExactly(plan, results, map[]);
    forall i | 0 <= i < |all|
      ensures SequentialAt(plan.credentialId, all[i], plan.jobs[i], i)
    {
      assert StepAt(plan.credentialId, all[i], at.jobs[i], at.results[i], at.expectedJobId + i);
    }
  }

  lemma {:induction false} FollowingAnswered(plan: DigestPlan, results: seq<DigestResult>)
    requires ResultsFollowPlanOrder(plan, results) && NoDuplicates(ResultIdentities(results))
    ensures ByIdentity(results).Keys == PlannedIdentities([plan])
    ensures Answered(plan.jobs, ByIdentity(results)) <==> LengthsFit(|results|, Cursor(plan.jobs, results, 0))
  {
    hide NoDuplicates, PlannedIdentities, ByIdentity;
    ByIdentityMeans(results);
    PlannedFirst([plan]);
    NothingPlanned([plan][1..]);
    assert ResultIdentities(results) == JobIdentities(plan.jobs);
    forall i | 0 <= i < |results|
      ensures JobIdentity(plan.jobs[i]) in ByIdentity(results)
      ensures ByIdentity(results)[JobIdentity(plan.jobs[i])] == results[i]
    {
      assert ResultIdentity(results[i]) == JobIdentity(plan.jobs[i]);
    }
  }

  lemma CredentialAlone(plan: DigestPlan)
    ensures NoDuplicates(CredentialIds([plan]))
  {
  }

  /** Results in plan order are assembled by the any-order path exactly when the
      plan is well formed and every digest has its algorithm's length. */
  lemma FollowingResultsAnswer(plan: DigestPlan, results: seq<DigestResult>)
    requires ResultsFollowPlanOrder(plan, results)
    ensures AssembleReordered(plan, results).Success?
       <==> WellFormed(plan) && LengthsFit(|results|, Cursor(plan.jobs, results, 0))
  {
    hide AssembleBatches, BatchMaps, AllDigests, DigestIdsDiffer, DigestsAreOwn, JobsAreOwn, ResultsAnswer, LengthsFit,
         Answered,
         NoDuplicates, PlannedIdentities, ByIdentity;
    BatchSucceedsExactly([plan], results);
    CredentialAlone(plan);
    assert ResultIdentities(results) == JobIdentities(plan.jobs);
    if NoDuplicates(ResultIdentities(results)) {
      AnswersMean([plan], results);
      FollowingAnswered(plan, results);
    }
  }

  /** For every plan and every result vector: choosing a path succeeds where the
      path for any order does, with the same value, unless the results follow
      plan order, the plan is well formed but not sequential, and every digest
      has its length; then the any-order path alone succeeds. */
  lemma PathsAgreeExactly(plan: DigestPlan, results: seq<DigestResult>)
    ensures (Assemble(plan, results).Success? <==> AssembleReordered(plan, results).Success?)
       <==> || !ResultsFollowPlanOrder(plan, results) || Sequential(plan) || !WellFormed(plan)
            || !LengthsFit(|results|, Cursor(plan.jobs, results, 0))
    ensures Assemble(plan, results).Success? ==> Assemble(plan, results) == AssembleReordered(plan, results)
    ensures !ResultsFollowPlanOrder(plan, results) || Sequential(plan) ==>
              Assemble(plan, results) == AssembleReordered(plan, results)
  {
    hide AssembleOrdered, AssembleReordered, Sequential, WellFormed, LengthsFit;
    if Sequential(plan) {
      SequentialPathsAgree(plan, results);
    }
    if AssembleOrdered(plan, results).Success? {
      OrderedNeedsSequential(plan, results);
      OrderedImpliesReordered(plan, results);
    }
    if ResultsFollowPlanOrder(plan, results) {
      FollowingResultsAnswer(plan, results);
    }
  }

  /** Such a plan: its job ids start at 1. The planner makes none of them. */
  lemma PathsDifferOnOtherPlans() returns (plan: DigestPlan, results: seq<DigestResult>)
    ensures ResultsFollowPlanOrder(plan, results) && !Sequential(plan)
    ensures Assemble(plan, results) == Failure(DuplicateJob)
    ensures AssembleReordered(plan, results).Success?
  {
    hide ByIdentity, AssembleBatches;
    var job := DigestJob(0, 1, 0, SHA256, []);
    var digest := PlannedDigest(0, 1, 7);
    plan := DigestPlan(0, [PlannedNamespace("n", [digest])], [job]);
    results := [DigestResult(0, 1, 0, Zeros(32))];
    var all := AllDigests(plan.namespaces);
    assert all == [digest] by {
      assert AllDigests(plan.namespaces[1..]) == [];
    }
    assert JobIdentities(plan.jobs) == DigestIdentities(all) == [Identity(0, 1)];
    assert WellFormed(plan);
    assert ResultIdentities(results) == [Identity(0, 1)];
    assert JobIdentity([plan][0].jobs[0]) in PlannedIdentities([plan]);
    assert ResultIdentity(results[0]) == JobIdentity(plan.jobs[0]) && Fits(results[0], plan.jobs[0]);
    BatchSucceedsExactly([plan], results);
    assert !SequentialAt(plan.credentialId, all[0], plan.jobs[0], 0);
  }

  /** And when both paths fail on such a plan, their errors can be different. */
  lemma FailuresCanDiffer() returns (plan: DigestPlan, results: seq<DigestResult>)
    ensures ResultsFollowPlanOrder(plan, results) && !Sequential(plan)
    ensures Assemble(plan, results) == Failure(DuplicateJob)
    ensures AssembleReordered(plan, results) == Failure(InvalidLength)
  {
    plan := DigestPlan(0, [PlannedNamespace("n", [PlannedDigest(0, 1, 7)])], [DigestJob(0, 1, 0, SHA256, [])]);
    results := [DigestResult(0, 1, 0, [])];
    var all := AllDigests(plan.namespaces);
    assert all == [PlannedDigest(0, 1, 7)] by {
      assert AllDigests(plan.namespaces[1..]) == [];
    }
    assert !SequentialAt(plan.credentialId, all[0], plan.jobs[0], 0);
    assert ByIdentity(results) == map[Identity(0, 1) := results[0]] by {
      assert results[..0] == [];
    }
    assert TakeJobs(0, plan.jobs, ByIdentity(results), map[]) == Failure(InvalidLength);
    assert [plan][0] == plan;
  }
}
