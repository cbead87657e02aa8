/** When assembly succeeds, and with what (src/issuance/mdoc.rs). */
module MdocAssemblyExact {
  import opened Fips180
  import opened DigestTypes
  import opened MdocDigestPlan
  import opened MdocAssembly
  import opened Distinctness

  // ---------- Well-formed plans ----------

  ghost function JobIdentities(jobs: seq<DigestJob>): (r: seq<Identity>)
    ensures |r| == |jobs|
    ensures forall i :: 0 <= i < |r| ==> r[i] == JobIdentity(jobs[i])
  {
    seq(|jobs|, i requires 0 <= i < |jobs| => JobIdentity(jobs[i]))
  }

  ghost function DigestIdentities(digests: seq<PlannedDigest>): (r: seq<Identity>)
    ensures |r| == |digests|
    ensures forall i :: 0 <= i < |r| ==> r[i] == DigestIdentity(digests[i])
  {
    seq(|digests|, i requires 0 <= i < |digests| => DigestIdentity(digests[i]))
  }

  ghost function DigestIdList(digests: seq<PlannedDigest>): (r: seq<nat>)
    ensures |r| == |digests|
    ensures forall i :: 0 <= i < |r| ==> r[i] == digests[i].digestId
  {
    seq(|digests|, i requires 0 <= i < |digests| => digests[i].digestId)
  }

  ghost function Names(namespaces: seq<PlannedNamespace>): (r: seq<string>)
    ensures |r| == |namespaces|
    ensures forall i :: 0 <= i < |r| ==> r[i] == namespaces[i].name
  {
    seq(|namespaces|, i requires 0 <= i < |namespaces| => namespaces[i].name)
  }

  ghost function CredentialIds(plans: seq<DigestPlan>): (r: seq<U64>)
    ensures |r| == |plans|
    ensures forall i :: 0 <= i < |r| ==> r[i] == plans[i].credentialId
  {
    seq(|plans|, i requires 0 <= i < |plans| => plans[i].credentialId)
  }

  ghost function AllDigests(namespaces: seq<PlannedNamespace>): seq<PlannedDigest> {
    if |namespaces| == 0 then [] else namespaces[0].digests + AllDigests(namespaces[1..])
  }

  ghost function PlannedIdentities(plans: seq<DigestPlan>): set<Identity> {
    set k, i | 0 <= k < |plans| && 0 <= i < |plans[k].jobs| :: JobIdentity(plans[k].jobs[i])
  }

  ghost predicate JobsAreOwn(credentialId: U64, jobs: seq<DigestJob>) {
    forall i :: 0 <= i < |jobs| ==> jobs[i].credentialId == credentialId
  }

  ghost predicate DigestsAreOwn(credentialId: U64, digests: seq<PlannedDigest>) {
    forall i :: 0 <= i < |digests| ==> digests[i].credentialId == credentialId
  }

  ghost predicate DigestIdsDiffer(namespaces: seq<PlannedNamespace>) {
    forall k :: 0 <= k < |namespaces| ==> NoDuplicates(DigestIdList(namespaces[k].digests))
  }

  /** Own identities only; jobs and planned digests in bijection; no digest id
      twice in a namespace, no namespace twice. */
  ghost predicate WellFormed(plan: DigestPlan) {
    && JobsAreOwn(plan.credentialId, plan.jobs)
    && NoDuplicates(JobIdentities(plan.jobs))
    && DigestsAreOwn(plan.credentialId, AllDigests(plan.namespaces))
    && NoDuplicates(DigestIdentities(AllDigests(plan.namespaces)))
    && Elements(DigestIdentities(AllDigests(plan.namespaces))) == Elements(JobIdentities(plan.jobs))
    && DigestIdsDiffer(plan.namespaces)
    && NoDuplicates(Names(plan.namespaces))
  }

  predicate Fits(result: DigestResult, job: DigestJob) {
    result.ordinal == job.ordinal && |result.digest| == DigestLength(job.algorithm)
  }

  ghost predicate Answered(jobs: seq<DigestJob>, available: Available) {
    forall i :: 0 <= i < |jobs| ==> JobIdentity(jobs[i]) in available && Fits(available[JobIdentity(jobs[i])], jobs[i])
  }

  // ---------- The value assembly gives ----------

  ghost function DigestMap(available: Available): Taken {
    map identity | identity in available :: available[identity].digest
  }

  ghost function DigestOf(digests: Taken, identity: Identity): seq<Byte> {
    if identity in digests then digests[identity] else []
  }

  ghost function NamespaceMap(planned: seq<PlannedDigest>, digests: Taken): DigestIds {
    if |planned| == 0 then map[]
    else map[planned[0].digestId := DigestOf(digests, DigestIdentity(planned[0]))] + NamespaceMap(planned[1..], digests)
  }

  ghost function PlanMap(namespaces: seq<PlannedNamespace>, digests: Taken): NamespaceDigests {
    if |namespaces| == 0 then map[]
    else map[namespaces[0].name := NamespaceMap(namespaces[0].digests, digests)] + PlanMap(namespaces[1..], digests)
  }

  /** The map of a namespace sends each planned digest id to the digest with
      that planned digest's identity, and has no other entries. */
  lemma {:induction false} NamespaceMapMeans(planned: seq<PlannedDigest>, digests: Taken)
    requires NoDuplicates(DigestIdList(planned))
    ensures NamespaceMap(planned, digests).Keys == Elements(DigestIdList(planned))
    ensures forall i :: 0 <= i < |planned| ==>
              && planned[i].digestId in NamespaceMap(planned, digests)
              && NamespaceMap(planned, digests)[planned[i].digestId] == DigestOf(digests, DigestIdentity(planned[i]))
  {
    hide DigestOf, NoDuplicates, Elements;
    if |planned| == 0 {
      NothingIsDistinct<nat>();
      assert DigestIdList(planned) == [];
    } else {
      var id, others := planned[0].digestId, planned[1..];
      assert DigestIdList(planned) == [id] + DigestIdList(others);
      NoDuplicatesCons(id, DigestIdList(others));
      NamespaceMapMeans(others, digests);
      Merge(id, DigestOf(digests, DigestIdentity(planned[0])), NamespaceMap(others, digests));
      assert forall i :: 0 < i < |planned| ==> planned[i] == others[i - 1];
    }
  }

  lemma {:induction false} PlanMapMeans(namespaces: seq<PlannedNamespace>, digests: Taken)
    requires NoDuplicates(Names(namespaces))
    ensures PlanMap(namespaces, digests).Keys == Elements(Names(namespaces))
    ensures forall k :: 0 <= k < |namespaces| ==>
              && namespaces[k].name in PlanMap(namespaces, digests)
              && PlanMap(namespaces, digests)[namespaces[k].name] == NamespaceMap(namespaces[k].digests, digests)
  {
    hide NamespaceMap, NoDuplicates, Elements;
    if |namespaces| == 0 {
      NothingIsDistinct<string>();
      assert Names(namespaces) == [];
    } else {
      var name, others := namespaces[0].name, namespaces[1..];
      assert Names(namespaces) == [name] + Names(others);
      NoDuplicatesCons(name, Names(others));
      PlanMapMeans(others, digests);
      Merge(name, NamespaceMap(namespaces[0].digests, digests), PlanMap(others, digests));
      assert forall k :: 0 < k < |namespaces| ==> namespaces[k] == others[k - 1];
    }
  }

  lemma Merge<K, V>(k: K, v: V, others: map<K, V>)
    requires k !in others
    ensures (map[k := v] + others).Keys == {k} + others.Keys
    ensures (map[k := v] + others)[k] == v
    ensures forall x :: x in others ==> (map[k := v] + others)[x] == others[x]
  {
  }

  ghost predicate AgreeOn(a: Taken, b: Taken, planned: seq<PlannedDigest>) {
    forall i :: 0 <= i < |planned| ==>
      DigestOf(a, DigestIdentity(planned[i])) == DigestOf(b, DigestIdentity(planned[i]))
  }

  lemma {:induction false} NamespaceMapAgrees(planned: seq<PlannedDigest>, a: Taken, b: Taken)
    requires AgreeOn(a, b, planned)
    ensures NamespaceMap(planned, a) == NamespaceMap(planned, b)
  {
    if |planned| > 0 {
      NamespaceMapAgrees(planned[1..], a, b);
    }
  }

  lemma {:induction false} PlanMapAgrees(namespaces: seq<PlannedNamespace>, a: Taken, b: Taken)
    requires AgreeOn(a, b, AllDigests(namespaces))
    ensures PlanMap(namespaces, a) == PlanMap(namespaces, b)
  {
    hide NamespaceMap, DigestOf;
    if |namespaces| > 0 {
      var first, others := namespaces[0].digests, AllDigests(namespaces[1..]);
      var both := AllDigests(namespaces);
      assert forall i :: 0 <= i < |first| ==> first[i] == both[i];
      assert forall i :: 0 <= i < |others| ==> others[i] == both[|first| + i];
      NamespaceMapAgrees(first, a, b);
      PlanMapAgrees(namespaces[1..], a, b);
    }
  }

  // ---------- One step of assembly at a time ----------

  ghost predicate CanTake(credentialId: U64, jobs: seq<DigestJob>, available: Available, taken: Taken) {
    && JobsAreOwn(credentialId, jobs)
    && NoDuplicates(JobIdentities(jobs))
    && Answered(jobs, available)
    && Elements(JobIdentities(jobs)) !! taken.Keys
  }

  ghost function Picked(available: Available, identities: set<Identity>): Taken {
    map identity | identity in available && identity in identities :: available[identity].digest
  }

  lemma {:induction false} TakeJobsExactly(credentialId: U64, jobs: seq<DigestJob>, available: Available, taken: Taken)
    ensures TakeJobs(credentialId, jobs, available, taken).Success? <==> CanTake(credentialId, jobs, available, taken)
    ensures CanTake(credentialId, jobs, available, taken) ==>
              TakeJobs(credentialId, jobs, available, taken).value
              == (available - Elements(JobIdentities(jobs)), taken + Picked(available, Elements(JobIdentities(jobs))))
  {
    hide NoDuplicates, Elements;
    if |jobs| == 0 {
      NothingIsDistinct<Identity>();
      assert JobIdentities(jobs) == [];
      assert available - {} == available && taken + Picked(available, {}) == taken;
    } else {
      var job, identity := jobs[0], JobIdentity(jobs[0]);
      assert JobIdentities(jobs) == [identity] + JobIdentities(jobs[1..]);
      NoDuplicatesCons(identity, JobIdentities(jobs[1..]));
      if job.credentialId == credentialId && identity !in taken && identity in available
          && Fits(available[identity], job) {
        var left, more := available - {identity}, taken[identity := available[identity].digest];
        TakeJobsExactly(credentialId, jobs[1..], left, more);
        ElementsAt(JobIdentities(jobs[1..]));
        CanTakeFirst(credentialId, jobs, available, taken);
        if CanTake(credentialId, jobs, available, taken) {
          assert left - Elements(JobIdentities(jobs[1..])) == available - Elements(JobIdentities(jobs));
          assert more + Picked(left, Elements(JobIdentities(jobs[1..])))
              == taken + Picked(available, Elements(JobIdentities(jobs)));
        }
      } else {
        assert CanTake(credentialId, jobs, available, taken) ==> identity in Elements(JobIdentities(jobs));
      }
    }
  }

  lemma NothingIsDistinct<T>()
    ensures NoDuplicates<T>([]) && Elements<T>([]) == {}
  {
  }

  lemma ElementsAt<T>(s: seq<T>)
    ensures forall i :: 0 <= i < |s| ==> s[i] in Elements(s)
  {
  }

  lemma CanTakeFirst(credentialId: U64, jobs: seq<DigestJob>, available: Available, taken: Taken)
    requires |jobs| > 0
    requires jobs[0].credentialId == credentialId && JobIdentity(jobs[0]) !in taken
    requires JobIdentity(jobs[0]) in available && Fits(available[JobIdentity(jobs[0])], jobs[0])
    ensures var identity := JobIdentity(jobs[0]);
      CanTake(credentialId, jobs, available, taken)
      <==> CanTake(credentialId, jobs[1..], available - {identity}, taken[identity := available[identity].digest])
  {
    hide NoDuplicates, Elements, Fits;
    var identity := JobIdentity(jobs[0]);
    var others, left := jobs[1..], available - {identity};
    assert JobIdentities(jobs) == [identity] + JobIdentities(others);
    NoDuplicatesCons(identity, JobIdentities(others));
    ElementsAt(JobIdentities(others));
    assert forall i :: 0 < i < |jobs| ==> jobs[i] == others[i - 1];
    assert forall i :: 0 <= i < |others| ==> others[i] == jobs[i + 1];
    assert identity !in Elements(JobIdentities(others)) ==> (Answered(jobs, available) <==> Answered(others, left)) by {
      if identity !in Elements(JobIdentities(others)) {
        assert forall i :: 0 <= i < |others| ==> JobIdentities(others)[i] != identity;
      }
    }
  }

  ghost predicate CanFill(credentialId: U64, digests: seq<PlannedDigest>, taken: Taken, ids: DigestIds) {
    && DigestsAreOwn(credentialId, digests)
    && NoDuplicates(DigestIdentities(digests))
    && Elements(DigestIdentities(digests)) <= taken.Keys
    && NoDuplicates(DigestIdList(digests))
    && Elements(DigestIdList(digests)) !! ids.Keys
  }

  lemma CanFillFirst(credentialId: U64, digests: seq<PlannedDigest>, taken: Taken, ids: DigestIds)
    requires |digests| > 0
    requires digests[0].credentialId == credentialId && DigestIdentity(digests[0]) in taken
        && digests[0].digestId !in ids
    ensures var identity := DigestIdentity(digests[0]);
      CanFill(credentialId, digests, taken, ids)
      <==> CanFill(credentialId, digests[1..], taken - {identity}, ids[digests[0].digestId := taken[identity]])
    ensures Elements(DigestIdentities(digests))
        == {DigestIdentity(digests[0])} + Elements(DigestIdentities(digests[1..]))
    ensures CanFill(credentialId, digests, taken, ids) ==>
        DigestIdentity(digests[0]) !in Elements(DigestIdentities(digests[1..]))
  {
    hide NoDuplicates, Elements;
    var identity, others := DigestIdentity(digests[0]), digests[1..];
    assert DigestIdentities(digests) == [identity] + DigestIdentities(others);
    assert DigestIdList(digests) == [digests[0].digestId] + DigestIdList(others);
    NoDuplicatesCons(identity, DigestIdentities(others));
    NoDuplicatesCons(digests[0].digestId, DigestIdList(others));
    assert forall i :: 0 < i < |digests| ==> digests[i] == others[i - 1];
    assert forall i :: 0 <= i < |others| ==> others[i] == digests[i + 1];
  }

  lemma {:induction false} FillNamespaceExactly(credentialId: U64, digests: seq<PlannedDigest>, taken: Taken,
                                                ids: DigestIds)
    ensures FillNamespace(credentialId, digests, taken, ids).Success? <==> CanFill(credentialId, digests, taken, ids)
    ensures CanFill(credentialId, digests, taken, ids) ==>
              FillNamespace(credentialId, digests, taken, ids).value
              == (taken - Elements(DigestIdentities(digests)), ids + NamespaceMap(digests, taken))
  {
    hide NoDuplicates, Elements;
    if |digests| == 0 {
      NothingIsDistinct<Identity>();
      NothingIsDistinct<nat>();
      assert DigestIdentities(digests) == [] && DigestIdList(digests) == [];
      assert taken - {} == taken && ids + map[] == ids;
    } else {
      var digest, identity := digests[0], DigestIdentity(digests[0]);
      ElementsAt(DigestIdentities(digests));
      ElementsAt(DigestIdList(digests));
      assert DigestIdentities(digests)[0] == identity && DigestIdList(digests)[0] == digest.digestId;
      if digest.credentialId == credentialId && identity in taken && digest.digestId !in ids {
        var left, more := taken - {identity}, ids[digest.digestId := taken[identity]];
        FillNamespaceExactly(credentialId, digests[1..], left, more);
        CanFillFirst(credentialId, digests, taken, ids);
        if CanFill(credentialId, digests, taken, ids) {
          NamespaceMapWithout(digests[1..], taken, identity);
          RemoveTwice(taken, {identity}, Elements(DigestIdentities(digests[1..])));
          AddThenMerge(ids, digest.digestId, taken[identity], NamespaceMap(digests[1..], taken));
        }
      }
    }
  }

  lemma {:induction false} NamespaceMapWithout(planned: seq<PlannedDigest>, digests: Taken, identity: Identity)
    requires identity !in Elements(DigestIdentities(planned))
    ensures NamespaceMap(planned, digests - {identity}) == NamespaceMap(planned, digests)
  {
    hide NamespaceMap;
    forall i | 0 <= i < |planned|
      ensures DigestOf(digests - {identity}, DigestIdentity(planned[i]))
          == DigestOf(digests, DigestIdentity(planned[i]))
    {
      assert DigestIdentities(planned)[i] != identity;
    }
    NamespaceMapAgrees(planned, digests - {identity}, digests);
  }

  ghost predicate CanFillAll(credentialId: U64, namespaces: seq<PlannedNamespace>, taken: Taken,
                             filled: NamespaceDigests)
  {
    && DigestsAreOwn(credentialId, AllDigests(namespaces))
    && NoDuplicates(DigestIdentities(AllDigests(namespaces)))
    && Elements(DigestIdentities(AllDigests(namespaces))) <= taken.Keys
    && DigestIdsDiffer(namespaces)
    && NoDuplicates(Names(namespaces))
    && Elements(Names(namespaces)) !! filled.Keys
  }

  lemma OwnSplits(credentialId: U64, a: seq<PlannedDigest>, b: seq<PlannedDigest>)
    ensures DigestsAreOwn(credentialId, a + b) <==> DigestsAreOwn(credentialId, a) && DigestsAreOwn(credentialId, b)
    ensures DigestIdentities(a + b) == DigestIdentities(a) + DigestIdentities(b)
  {
    assert forall i :: 0 <= i < |a| ==> a[i] == (a + b)[i];
    assert forall i :: 0 <= i < |b| ==> b[i] == (a + b)[|a| + i];
  }

  lemma DifferSplits(namespaces: seq<PlannedNamespace>)
    requires |namespaces| > 0
    ensures DigestIdsDiffer(namespaces)
       <==> NoDuplicates(DigestIdList(namespaces[0].digests)) && DigestIdsDiffer(namespaces[1..])
  {
    hide NoDuplicates, DigestIdList;
    assert forall k :: 0 < k < |namespaces| ==> namespaces[k] == namespaces[1..][k - 1];
  }

  /** `CanFillAll` split at the first namespace. */
  lemma {:induction false} CanFillAllFirst(credentialId: U64, namespaces: seq<PlannedNamespace>, taken: Taken,
                                           filled: NamespaceDigests, ids: DigestIds)
    requires |namespaces| > 0
    ensures var first, others := namespaces[0], namespaces[1..];
      var own := Elements(DigestIdentities(first.digests));
      && Elements(DigestIdentities(AllDigests(namespaces))) == own + Elements(DigestIdentities(AllDigests(others)))
      && (CanFillAll(credentialId, namespaces, taken, filled) ==> own !! Elements(DigestIdentities(AllDigests(others))))
      && (CanFillAll(credentialId, namespaces, taken, filled)
          <==> && CanFill(credentialId, first.digests, taken, map[])
               && first.name !in filled
               && CanFillAll(credentialId, others, taken - own, filled[first.name := ids]))
  {
    hide NoDuplicates, Elements, DigestsAreOwn, DigestIdsDiffer, DigestIdentities, Names, DigestIdList;
    var first, others := namespaces[0], namespaces[1..];
    var a, b := first.digests, AllDigests(others);
    OwnSplits(credentialId, a, b);
    DifferSplits(namespaces);
    NoDuplicatesConcat(DigestIdentities(a), DigestIdentities(b));
    assert Names(namespaces) == [first.name] + Names(others);
    NoDuplicatesCons(first.name, Names(others));
  }

  lemma RemoveTwice<K, V>(m: map<K, V>, a: set<K>, b: set<K>)
    ensures (m - a) - b == m - (a + b)
  {
  }

  lemma AddThenMerge<K, V>(m: map<K, V>, k: K, v: V, n: map<K, V>)
    ensures m[k := v] + n == m + (map[k := v] + n)
  {
  }

  lemma {:induction false} FillNamespacesExactly(credentialId: U64, namespaces: seq<PlannedNamespace>, taken: Taken,
                                                 filled: NamespaceDigests)
    ensures FillNamespaces(credentialId, namespaces, taken, filled).Success? <==>
        CanFillAll(credentialId, namespaces, taken, filled)
    ensures CanFillAll(credentialId, namespaces, taken, filled) ==>
              FillNamespaces(credentialId, namespaces, taken, filled).value
              == (taken - Elements(DigestIdentities(AllDigests(namespaces))), filled + PlanMap(namespaces, taken))
  {
    hide NoDuplicates, Elements, CanFill, CanFillAll, NamespaceMap, FillNamespace, DigestIdentities, AllDigests;
    if |namespaces| == 0 {
      NothingToFill(credentialId, namespaces, taken, filled);
    } else {
      var first, others := namespaces[0], namespaces[1..];
      var own := Elements(DigestIdentities(first.digests));
      FillNamespaceExactly(credentialId, first.digests, taken, map[]);
      var ids := NamespaceMap(first.digests, taken);
      assert map[] + ids == ids;
      CanFillAllFirst(credentialId, namespaces, taken, filled, ids);
      FillNamespacesExactly(credentialId, others, taken - own, filled[first.name := ids]);
      if CanFillAll(credentialId, namespaces, taken, filled) {
        PlanMapWithout(others, taken, own);
        RemoveTwice(taken, own, Elements(DigestIdentities(AllDigests(others))));
        AddThenMerge(filled, first.name, ids, PlanMap(others, taken));
      }
    }
  }

  lemma {:induction false} NothingToFill(credentialId: U64, namespaces: seq<PlannedNamespace>, taken: Taken,
                                         filled: NamespaceDigests)
    requires |namespaces| == 0
    ensures CanFillAll(credentialId, namespaces, taken, filled)
    ensures taken - Elements(DigestIdentities(AllDigests(namespaces))) == taken
    ensures filled + PlanMap(namespaces, taken) == filled
  {
  }

  lemma {:induction false} PlanMapWithout(namespaces: seq<PlannedNamespace>, digests: Taken, gone: set<Identity>)
    requires gone !! Elements(DigestIdentities(AllDigests(namespaces)))
    ensures PlanMap(namespaces, digests - gone) == PlanMap(namespaces, digests)
  {
    hide PlanMap;
    var planned := AllDigests(namespaces);
    forall i | 0 <= i < |planned|
      ensures DigestOf(digests - gone, DigestIdentity(planned[i])) == DigestOf(digests, DigestIdentity(planned[i]))
    {
      assert DigestIdentities(planned)[i] in Elements(DigestIdentities(planned));
    }
    PlanMapAgrees(namespaces, digests - gone, digests);
  }

  // ---------- Whole plans ----------

  lemma AssemblePlanExactly(plan: DigestPlan, available: Available)
    ensures AssemblePlan(plan, available).Success? <==> WellFormed(plan) && Answered(plan.jobs, available)
    ensures WellFormed(plan) && Answered(plan.jobs, available) ==>
              AssemblePlan(plan, available).value
              == (available - Elements(JobIdentities(plan.jobs)), PlanMap(plan.namespaces, DigestMap(available)))
  {
    hide NoDuplicates, Elements, TakeJobs, FillNamespaces, PlanMap, AllDigests, Fits;
    TakeJobsExactly(plan.credentialId, plan.jobs, available, map[]);
    if CanTake(plan.credentialId, plan.jobs, available, map[]) {
      var own := Elements(JobIdentities(plan.jobs));
      JobsAreAvailable(plan.jobs, available);
      var taken := Picked(available, own);
      assert map[] + taken == taken;
      assert taken.Keys == own;
      FillNamespacesExactly(plan.credentialId, plan.namespaces, taken, map[]);
      assert Elements(Names(plan.namespaces)) !! {};
      assert map[] + PlanMap(plan.namespaces, taken) == PlanMap(plan.namespaces, taken);
      var used := Elements(DigestIdentities(AllDigests(plan.namespaces)));
      assert (taken - used).Keys == own - used;
      if own == used {
        PlanMapPicked(plan.namespaces, available, own);
      }
    } else {
      assert {} !! Elements(JobIdentities(plan.jobs));
    }
  }

  lemma JobsAreAvailable(jobs: seq<DigestJob>, available: Available)
    requires Answered(jobs, available)
    ensures Elements(JobIdentities(jobs)) <= available.Keys
  {
    hide Fits;
    forall x | x in Elements(JobIdentities(jobs))
      ensures x in available
    {
      var i :| 0 <= i < |jobs| && JobIdentities(jobs)[i] == x;
      assert JobIdentity(jobs[i]) in available;
    }
  }

  lemma {:induction false} PlanMapPicked(namespaces: seq<PlannedNamespace>, available: Available, own: set<Identity>)
    requires Elements(DigestIdentities(AllDigests(namespaces))) <= own
    ensures PlanMap(namespaces, Picked(available, own)) == PlanMap(namespaces, DigestMap(available))
  {
    hide PlanMap;
    var planned := AllDigests(namespaces);
    forall i | 0 <= i < |planned|
      ensures DigestOf(Picked(available, own), DigestIdentity(planned[i]))
          == DigestOf(DigestMap(available), DigestIdentity(planned[i]))
    {
      assert DigestIdentities(planned)[i] in Elements(DigestIdentities(planned));
    }
    PlanMapAgrees(namespaces, Picked(available, own), DigestMap(available));
  }

  // ---------- Whole batches ----------

  ghost predicate CanAssemble(plans: seq<DigestPlan>, available: Available, credentialIds: set<U64>) {
    && NoDuplicates(CredentialIds(plans))
    && Elements(CredentialIds(plans)) !! credentialIds
    && (forall k :: 0 <= k < |plans| ==> WellFormed(plans[k]) && Answered(plans[k].jobs, available))
    && available.Keys == PlannedIdentities(plans)
  }

  /** Each plan's map, drawn from the results by identity. */
  ghost function BatchMaps(plans: seq<DigestPlan>, digests: Taken): (r: seq<NamespaceDigests>)
    ensures |r| == |plans|
    ensures forall k :: 0 <= k < |plans| ==> r[k] == PlanMap(plans[k].namespaces, digests)
  {
    seq(|plans|, k requires 0 <= k < |plans| => PlanMap(plans[k].namespaces, digests))
  }

  lemma NothingPlanned(plans: seq<DigestPlan>)
    requires |plans| == 0
    ensures PlannedIdentities(plans) == {}
  {
  }

  lemma PlannedFirst(plans: seq<DigestPlan>)
    requires |plans| > 0
    ensures PlannedIdentities(plans) == Elements(JobIdentities(plans[0].jobs)) + PlannedIdentities(plans[1..])
  {
    var others := plans[1..];
    assert forall k :: 0 < k < |plans| ==> plans[k] == others[k - 1];
    assert forall k :: 0 <= k < |others| ==> others[k] == plans[k + 1];
    forall x | x in PlannedIdentities(others)
      ensures x in PlannedIdentities(plans)
    {
      var k, i :| 0 <= k < |others| && 0 <= i < |others[k].jobs| && x == JobIdentity(others[k].jobs[i]);
      assert x == JobIdentity(plans[k + 1].jobs[i]);
    }
    forall x | x in Elements(JobIdentities(plans[0].jobs))
      ensures x in PlannedIdentities(plans)
    {
      var i :| 0 <= i < |plans[0].jobs| && JobIdentities(plans[0].jobs)[i] == x;
      assert x == JobIdentity(plans[0].jobs[i]);
    }
    forall x | x in PlannedIdentities(plans)
      ensures x in Elements(JobIdentities(plans[0].jobs)) || x in PlannedIdentities(others)
    {
      var k, i :| 0 <= k < |plans| && 0 <= i < |plans[k].jobs| && x == JobIdentity(plans[k].jobs[i]);
      if k == 0 {
        assert JobIdentities(plans[0].jobs)[i] == x;
      } else {
        assert x == JobIdentity(others[k - 1].jobs[i]);
      }
    }
  }

  lemma OwnIdentities(plan: DigestPlan)
    requires WellFormed(plan)
    ensures forall x :: x in Elements(JobIdentities(plan.jobs)) ==> x.credentialId == plan.credentialId
  {
  }

  lemma AnsweredElsewhere(plan: DigestPlan, available: Available, own: set<Identity>)
    requires WellFormed(plan) && forall x :: x in own ==> x.credentialId != plan.credentialId
    ensures Answered(plan.jobs, available) <==> Answered(plan.jobs, available - own)
    ensures own !! Elements(JobIdentities(plan.jobs))
  {
    hide Fits;
    OwnIdentities(plan);
    ElementsAt(JobIdentities(plan.jobs));
    assert forall i :: 0 <= i < |plan.jobs| ==> JobIdentities(plan.jobs)[i] !in own;
  }

  lemma PlannedElsewhere(plans: seq<DigestPlan>, credentialId: U64)
    requires forall k :: 0 <= k < |plans| ==> WellFormed(plans[k]) && plans[k].credentialId != credentialId
    ensures forall x :: x in PlannedIdentities(plans) ==> x.credentialId != credentialId
  {
  }

  /** `CanAssemble` split at the first plan: plans of other credentials neither
      need nor see its results. */
  lemma CanAssembleFirst(plans: seq<DigestPlan>, available: Available, credentialIds: set<U64>)
    requires |plans| > 0 && WellFormed(plans[0]) && Answered(plans[0].jobs, available)
    requires plans[0].credentialId !in credentialIds
    ensures CanAssemble(plans, available, credentialIds)
       <==> CanAssemble(plans[1..], available - Elements(JobIdentities(plans[0].jobs)),
                        credentialIds + {plans[0].credentialId})
  {
    hide NoDuplicates, Elements, WellFormed, Answered, PlannedIdentities, JobIdentities;
    var c, others, own := plans[0].credentialId, plans[1..], Elements(JobIdentities(plans[0].jobs));
    assert CredentialIds(plans) == [c] + CredentialIds(others);
    NoDuplicatesCons(c, CredentialIds(others));
    ElementsAt(CredentialIds(others));
    OwnIdentities(plans[0]);
    PlannedFirst(plans);
    JobsAreAvailable(plans[0].jobs, available);
    assert forall k :: 0 < k < |plans| ==> plans[k] == others[k - 1];
    assert forall k :: 0 <= k < |others| ==> others[k] == plans[k + 1];
    if c !in Elements(CredentialIds(others)) && forall k :: 0 <= k < |others| ==> WellFormed(others[k]) {
      forall k | 0 <= k < |others|
        ensures others[k].credentialId != c
        ensures Answered(others[k].jobs, available) <==> Answered(others[k].jobs, available - own)
      {
        assert CredentialIds(others)[k] in Elements(CredentialIds(others));
        AnsweredElsewhere(others[k], available, own);
      }
      PlannedElsewhere(others, c);
      assert available.Keys == PlannedIdentities(plans) <==> (available - own).Keys == PlannedIdentities(others);
    }
  }

  lemma {:induction false} AssemblePlansExactly(plans: seq<DigestPlan>, available: Available, credentialIds: set<U64>,
                                                batches: seq<NamespaceDigests>)
    ensures AssemblePlans(plans, available, credentialIds, batches).Success? <==>
        CanAssemble(plans, available, credentialIds)
    ensures CanAssemble(plans, available, credentialIds) ==>
              AssemblePlans(plans, available, credentialIds, batches).value
                == batches + BatchMaps(plans, DigestMap(available))
  {
    hide NoDuplicates, Elements, WellFormed, Answered, AssemblePlan, PlanMap, DigestMap, PlannedIdentities,
         JobIdentities, CanAssemble;
    if |plans| == 0 {
      NothingToAssemble(plans, available, credentialIds);
      assert batches + BatchMaps(plans, DigestMap(available)) == batches;
    } else {
      AssemblePlanExactly(plans[0], available);
      if plans[0].credentialId in credentialIds || !WellFormed(plans[0]) || !Answered(plans[0].jobs, available) {
        CannotAssemble(plans, available, credentialIds);
      } else {
        var own, others := Elements(JobIdentities(plans[0].jobs)), plans[1..];
        var first := PlanMap(plans[0].namespaces, DigestMap(available));
        CanAssembleFirst(plans, available, credentialIds);
        AssemblePlansExactly(others, available - own, credentialIds + {plans[0].credentialId}, batches + [first]);
        if CanAssemble(plans, available, credentialIds) {
          BatchMapsWithout(plans, available, credentialIds);
          assert (batches + [first]) + BatchMaps(others, DigestMap(available))
              == batches + BatchMaps(plans, DigestMap(available));
        }
      }
    }
  }

  lemma NothingToAssemble(plans: seq<DigestPlan>, available: Available, credentialIds: set<U64>)
    requires |plans| == 0
    ensures CanAssemble(plans, available, credentialIds) <==> available == map[]
  {
    assert PlannedIdentities(plans) == {};
    assert available.Keys == {} <==> available == map[];
  }

  lemma CannotAssemble(plans: seq<DigestPlan>, available: Available, credentialIds: set<U64>)
    requires |plans| > 0
    requires plans[0].credentialId in credentialIds || !WellFormed(plans[0]) || !Answered(plans[0].jobs, available)
    ensures !CanAssemble(plans, available, credentialIds)
  {
    hide WellFormed, Answered;
    assert CredentialIds(plans)[0] in Elements(CredentialIds(plans));
  }

  lemma BatchMapsWithout(plans: seq<DigestPlan>, available: Available, credentialIds: set<U64>)
    requires |plans| > 0 && CanAssemble(plans, available, credentialIds)
    ensures BatchMaps(plans[1..], DigestMap(available - Elements(JobIdentities(plans[0].jobs))))
         == BatchMaps(plans[1..], DigestMap(available))
  {
    hide WellFormed, Answered, PlanMap, PlannedIdentities, JobIdentities, Elements;
    var own := Elements(JobIdentities(plans[0].jobs));
    OwnIdentities(plans[0]);
    assert DigestMap(available - own) == DigestMap(available) - own;
    forall k | 1 <= k < |plans|
      ensures PlanMap(plans[k].namespaces, DigestMap(available) - own)
          == PlanMap(plans[k].namespaces, DigestMap(available))
    {
      assert CredentialIds(plans)[0] != CredentialIds(plans)[k];
      AnsweredElsewhere(plans[k], available, own);
      SameIdentities(plans[k]);
      PlanMapWithout(plans[k].namespaces, DigestMap(available), own);
    }
    assert forall k :: 0 <= k < |plans[1..]| ==> plans[1..][k] == plans[k + 1];
  }

  lemma SameIdentities(plan: DigestPlan)
    requires WellFormed(plan)
    ensures Elements(DigestIdentities(AllDigests(plan.namespaces))) == Elements(JobIdentities(plan.jobs))
  {
  }

  // ---------- The main results ----------

  /** The results are exactly the planned ones: identities pairwise different,
      each planned job answered with its ordinal and a digest of its length,
      nothing else. */
  ghost predicate ResultsAnswer(plans: seq<DigestPlan>, results: seq<DigestResult>) {
    && NoDuplicates(ResultIdentities(results))
    && (forall k, i :: 0 <= k < |plans| && 0 <= i < |plans[k].jobs| ==> HasAnswer(plans[k].jobs[i], results))
    && (forall r :: 0 <= r < |results| ==> ResultIdentity(results[r]) in PlannedIdentities(plans))
  }

  ghost predicate HasAnswer(job: DigestJob, results: seq<DigestResult>) {
    exists r :: 0 <= r < |results| && ResultIdentity(results[r]) == JobIdentity(job) && Fits(results[r], job)
  }

  lemma {:induction false} ByIdentityMeans(results: seq<DigestResult>)
    ensures ByIdentity(results).Keys == Elements(ResultIdentities(results))
    ensures NoDuplicates(ResultIdentities(results)) ==>
              forall r :: 0 <= r < |results| ==>
                ResultIdentity(results[r]) in ByIdentity(results)
                && ByIdentity(results)[ResultIdentity(results[r])] == results[r]
  {
    if |results| == 0 {
      assert ResultIdentities(results) == [];
    } else {
      var front, last := results[..|results| - 1], results[|results| - 1];
      ByIdentityMeans(front);
      assert ResultIdentities(results) == ResultIdentities(front) + [ResultIdentity(last)];
      NoDuplicatesPush(ResultIdentities(front), ResultIdentity(last));
      if NoDuplicates(ResultIdentities(results)) {
        forall r | 0 <= r < |results|
          ensures ResultIdentity(results[r]) in ByIdentity(results)
              && ByIdentity(results)[ResultIdentity(results[r])] == results[r]
        {
          if r < |front| {
            assert front[r] == results[r];
            assert ResultIdentities(front)[r] in Elements(ResultIdentities(front));
          }
        }
      }
    }
  }

  lemma {:induction false} AnswersMean(plans: seq<DigestPlan>, results: seq<DigestResult>)
    requires NoDuplicates(ResultIdentities(results))
    ensures ResultsAnswer(plans, results)
       <==> && (forall k :: 0 <= k < |plans| ==> Answered(plans[k].jobs, ByIdentity(results)))
            && ByIdentity(results).Keys == PlannedIdentities(plans)
  {
    hide *;
    if ResultsAnswer(plans, results) {
      AnswersGive(plans, results);
    }
    if && (forall k :: 0 <= k < |plans| ==> Answered(plans[k].jobs, ByIdentity(results)))
       && ByIdentity(results).Keys == PlannedIdentities(plans) {
      AnswersFollow(plans, results);
    }
  }

  lemma {:induction false} AnswersGive(plans: seq<DigestPlan>, results: seq<DigestResult>)
    requires ResultsAnswer(plans, results)
    ensures forall k :: 0 <= k < |plans| ==> Answered(plans[k].jobs, ByIdentity(results))
    ensures ByIdentity(results).Keys == PlannedIdentities(plans)
  {
    hide NoDuplicates, Fits, ByIdentity;
    var available := ByIdentity(results);
    ByIdentityMeans(results);
    forall k, i | 0 <= k < |plans| && 0 <= i < |plans[k].jobs|
      ensures JobIdentity(plans[k].jobs[i]) in available
              && Fits(available[JobIdentity(plans[k].jobs[i])], plans[k].jobs[i])
    {
      var job := plans[k].jobs[i];
      assert HasAnswer(job, results);
      var r :| 0 <= r < |results| && ResultIdentity(results[r]) == JobIdentity(job) && Fits(results[r], job);
    }
    assert available.Keys == PlannedIdentities(plans);
  }

  lemma {:induction false} AnswersFollow(plans: seq<DigestPlan>, results: seq<DigestResult>)
    requires NoDuplicates(ResultIdentities(results))
    requires forall k :: 0 <= k < |plans| ==> Answered(plans[k].jobs, ByIdentity(results))
    requires ByIdentity(results).Keys == PlannedIdentities(plans)
    ensures ResultsAnswer(plans, results)
  {
    hide NoDuplicates, Fits, ByIdentity, PlannedIdentities, Answered;
    ByIdentityMeans(results);
    forall k, i | 0 <= k < |plans| && 0 <= i < |plans[k].jobs|
      ensures HasAnswer(plans[k].jobs[i], results)
    {
      var r := AnswerTo(plans[k].jobs, results, i);
    }
    forall r | 0 <= r < |results|
      ensures ResultIdentity(results[r]) in PlannedIdentities(plans)
    {
      assert ResultIdentities(results)[r] in Elements(ResultIdentities(results));
    }
  }

  lemma AnswerTo(jobs: seq<DigestJob>, results: seq<DigestResult>, i: nat) returns (r: nat)
    requires NoDuplicates(ResultIdentities(results)) && Answered(jobs, ByIdentity(results)) && i < |jobs|
    ensures r < |results| && ResultIdentity(results[r]) == JobIdentity(jobs[i]) && Fits(results[r], jobs[i])
  {
    hide NoDuplicates, Fits, ByIdentity;
    ByIdentityMeans(results);
    assert JobIdentity(jobs[i]) in Elements(ResultIdentities(results));
    r :| 0 <= r < |results| && ResultIdentities(results)[r] == JobIdentity(jobs[i]);
    assert ByIdentity(results)[ResultIdentity(results[r])] == results[r];
  }

  /** A batch is assembled if and only if its credentials are different, every
      plan is well formed, and the results answer the plans exactly; otherwise
      nothing is returned. */
  lemma {:induction false} BatchSucceedsExactly(plans: seq<DigestPlan>, results: seq<DigestResult>)
    ensures AssembleBatches(plans, results).Success?
       <==> && NoDuplicates(CredentialIds(plans))
            && (forall k :: 0 <= k < |plans| ==> WellFormed(plans[k]))
            && ResultsAnswer(plans, results)
    ensures AssembleBatches(plans, results).Success? ==>
              AssembleBatches(plans, results).value == BatchMaps(plans, DigestMap(ByIdentity(results)))
  {
    hide NoDuplicates, WellFormed, Answered, AssemblePlans, PlanMap, DigestMap, PlannedIdentities, ByIdentity;
    if NoDuplicates(ResultIdentities(results)) {
      AnswersMean(plans, results);
      AssemblePlansExactly(plans, ByIdentity(results), {}, []);
      assert Elements(CredentialIds(plans)) !! {};
      assert [] + BatchMaps(plans, DigestMap(ByIdentity(results))) == BatchMaps(plans, DigestMap(ByIdentity(results)));
    }
  }

  /** In an assembled batch, the entry of every planned digest is the digest of
      the one result with that plan's credential id and that digest's job id,
      and there are no other namespaces or entries. */
  lemma MapsDrawOnOwnResults(plans: seq<DigestPlan>, results: seq<DigestResult>, k: nat, n: nat, i: nat)
    requires AssembleBatches(plans, results).Success?
    requires k < |plans| && n < |plans[k].namespaces| && i < |plans[k].namespaces[n].digests|
    ensures var batches := AssembleBatches(plans, results).value;
      var (plan, namespace) := (plans[k], plans[k].namespaces[n]);
      && |batches| == |plans|
      && batches[k].Keys == Elements(Names(plan.namespaces))
      && namespace.name in batches[k]
      && batches[k][namespace.name].Keys == Elements(DigestIdList(namespace.digests))
      && namespace.digests[i].digestId in batches[k][namespace.name]
      && exists r :: 0 <= r < |results|
                     && ResultIdentity(results[r]) == Identity(plan.credentialId, namespace.digests[i].jobId)
                     && batches[k][namespace.name][namespace.digests[i].digestId] == results[r].digest
  {
    hide NoDuplicates, Answered, PlanMap, NamespaceMap, PlannedIdentities, ByIdentity, AssembleBatches, DigestIdsDiffer;
    BatchSucceedsExactly(plans, results);
    var plan, namespace := plans[k], plans[k].namespaces[n];
    var available := ByIdentity(results);
    assert WellFormed(plan);
    PlanMapMeans(plan.namespaces, DigestMap(available));
    assert NoDuplicates(DigestIdList(namespace.digests)) by {
      DifferAt(plan.namespaces, n);
    }
    NamespaceMapMeans(namespace.digests, DigestMap(available));
    var at := DigestAt(plan.namespaces, n, i);
    var identity := DigestIdentity(namespace.digests[i]);
    assert DigestIdentities(AllDigests(plan.namespaces))[at] == identity;
    assert identity in Elements(JobIdentities(plan.jobs));
    var j :| 0 <= j < |plan.jobs| && JobIdentities(plan.jobs)[j] == identity;
    ByIdentityMeans(results);
    AnsweringResult(plans, results, k, j);
  }

  lemma {:induction false} AnsweringResult(plans: seq<DigestPlan>, results: seq<DigestResult>, k: nat, j: nat)
    requires ResultsAnswer(plans, results) && k < |plans| && j < |plans[k].jobs|
    ensures var identity := JobIdentity(plans[k].jobs[j]);
      exists r :: 0 <= r < |results| && ResultIdentity(results[r]) == identity
                  && DigestOf(DigestMap(ByIdentity(results)), identity) == results[r].digest
  {
    hide NoDuplicates, ByIdentity, Fits;
    ByIdentityMeans(results);
  }

  lemma DifferAt(namespaces: seq<PlannedNamespace>, n: nat)
    requires DigestIdsDiffer(namespaces) && n < |namespaces|
    ensures NoDuplicates(DigestIdList(namespaces[n].digests))
  {
  }

  lemma {:induction false} DigestAt(namespaces: seq<PlannedNamespace>, n: nat, i: nat) returns (at: nat)
    requires n < |namespaces| && i < |namespaces[n].digests|
    ensures at < |AllDigests(namespaces)| && AllDigests(namespaces)[at] == namespaces[n].digests[i]
  {
    if n == 0 {
      at := i;
    } else {
      var before := DigestAt(namespaces[1..], n - 1, i);
      at := |namespaces[0].digests| + before;
    }
  }
}
