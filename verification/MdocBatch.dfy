/** Preparing one mdoc or a batch of them (src/issuance/mdoc.rs). */
module MdocBatch {
  import opened Fips180
  import opened DigestTypes
  import opened MdocPlanning
  import opened MdocDigestPlan
  import opened MdocAssembly

  // ---------- Inputs and outputs ----------

  type Namespaces = s: seq<Namespace> | DistinctNames(s) witness []

  /** `authorizations` is whether the key authorizations present are valid. */
  datatype DeviceKeyInfo = DeviceKeyInfo(deviceKey: seq<Byte>, authorizations: Option<bool>)

  datatype Builder = Builder(
    docType: Option<string>, namespaces: Option<Namespaces>, validityInfo: Option<seq<Byte>>,
    digestAlgorithm: Option<DigestAlgorithm>, deviceKeyInfo: Option<DeviceKeyInfo>, enableDecoyDigests: Option<bool>)

  datatype BatchItem = BatchItem(credentialId: U64, builder: Builder, signatureAlgorithm: int)

  datatype Inputs = Inputs(
    docType: string, namespaces: Namespaces, validityInfo: seq<Byte>, digestAlgorithm: DigestAlgorithm,
    deviceKeyInfo: DeviceKeyInfo, signatureAlgorithm: int, enableDecoyDigests: bool)

  datatype ValidatedItem = ValidatedItem(credentialId: U64, inputs: Inputs)

  datatype Mso = Mso(
    digestAlgorithm: DigestAlgorithm, valueDigests: NamespaceDigests, deviceKeyInfo: DeviceKeyInfo,
    docType: string, validityInfo: seq<Byte>)

  datatype PreparedMdoc = PreparedMdoc(docType: string, namespaces: seq<IssuerNamespace>, mso: Mso,
                                       signaturePayload: seq<Byte>)

  datatype PreparedItem = PreparedItem(credentialId: U64, prepared: PreparedMdoc)

  datatype PrepareError =
    | DuplicateIdentity
    | MissingDocType | MissingNamespaces | MissingValidityInfo | MissingDigestAlgorithm | MissingDeviceKeyInfo
    | InvalidAuthorizations
    | Planning(plan: PlanError) | Executing | Assembling(assembly: AssemblyError) | Omitted | Finishing

  type Executor = seq<DigestJob> -> Option<seq<DigestResult>>

  /** Encoding and COSE preparation of an mso under a signature algorithm. */
  type Finisher = (Mso, int) -> Option<seq<Byte>>

  // ---------- Validation ----------

  predicate ShapeIsValid(namespaces: seq<Namespace>) {
    |namespaces| > 0 && forall k :: 0 <= k < |namespaces| ==> |namespaces[k].elements| > 0
  }

  function ValidateShape(namespaces: seq<Namespace>): Option<PrepareError> {
    if |namespaces| == 0 then Some(Planning(NamespaceRequired))
    else if ShapeIsValid(namespaces) then None
    else Some(Planning(ElementRequired))
  }

  /** A builder's inputs, or the first thing wrong with them. */
  function ValidateBuilder(builder: Builder, signatureAlgorithm: int): Result<Inputs, PrepareError> {
    if builder.docType.None? then Failure(MissingDocType)
    else if builder.namespaces.None? then Failure(MissingNamespaces)
    else if builder.validityInfo.None? then Failure(MissingValidityInfo)
    else if builder.digestAlgorithm.None? then Failure(MissingDigestAlgorithm)
    else if builder.deviceKeyInfo.None? then Failure(MissingDeviceKeyInfo)
    else if builder.deviceKeyInfo.value.authorizations == Some(false) then Failure(InvalidAuthorizations)
    else
      match ValidateShape(builder.namespaces.value)
      case Some(error) => Failure(error)
      case None =>
        Success(Inputs(builder.docType.value, builder.namespaces.value, builder.validityInfo.value,
                       builder.digestAlgorithm.value, builder.deviceKeyInfo.value, signatureAlgorithm,
                       if builder.enableDecoyDigests.None? then true else builder.enableDecoyDigests.value))
  }

  /** A builder validates exactly when everything is present, its authorizations
      are not invalid and no namespace is empty; the inputs are then its own, with
      decoys unless they were switched off. Otherwise the error is the first of
      these that fails, in this order. */
  lemma BuilderValidates(b: Builder, signatureAlgorithm: int)
    ensures var r := ValidateBuilder(b, signatureAlgorithm);
      var present := && b.docType.Some? && b.namespaces.Some? && b.validityInfo.Some? && b.digestAlgorithm.Some?
                     && b.deviceKeyInfo.Some?;
      var valid := present && b.deviceKeyInfo.value.authorizations != Some(false);
      var nonEmpty := valid && |b.namespaces.value| > 0;
      && (r.Success? <==>
            nonEmpty && forall k :: 0 <= k < |b.namespaces.value| ==> |b.namespaces.value[k].elements| > 0)
      && (r.Success? ==>
            && r.value.docType == b.docType.value && r.value.namespaces == b.namespaces.value
            && r.value.validityInfo == b.validityInfo.value && r.value.digestAlgorithm == b.digestAlgorithm.value
            && r.value.deviceKeyInfo == b.deviceKeyInfo.value && r.value.signatureAlgorithm == signatureAlgorithm
            && (r.value.enableDecoyDigests <==> b.enableDecoyDigests != Some(false)))
      && (r == Failure(MissingDocType) <==> b.docType.None?)
      && (r == Failure(MissingNamespaces) <==> b.docType.Some? && b.namespaces.None?)
      && (r == Failure(MissingValidityInfo) <==> b.docType.Some? && b.namespaces.Some? && b.validityInfo.None?)
      && (r == Failure(MissingDigestAlgorithm) <==>
            b.docType.Some? && b.namespaces.Some? && b.validityInfo.Some? && b.digestAlgorithm.None?)
      && (r == Failure(MissingDeviceKeyInfo) <==>
            && b.docType.Some? && b.namespaces.Some? && b.validityInfo.Some? && b.digestAlgorithm.Some?
            && b.deviceKeyInfo.None?)
      && (r == Failure(InvalidAuthorizations) <==> present && !valid)
      && (r == Failure(Planning(NamespaceRequired)) <==> valid && !nonEmpty)
      && (r == Failure(Planning(ElementRequired)) <==> nonEmpty && r.Failure?)
  {
  }

  ghost predicate ItemIsGood(batch: seq<BatchItem>, i: nat)
    requires i < |batch|
  {
    && (forall j :: 0 <= j < i ==> batch[j].credentialId != batch[i].credentialId)
    && ValidateBuilder(batch[i].builder, batch[i].signatureAlgorithm).Success?
  }

  ghost function ItemError(batch: seq<BatchItem>, i: nat): PrepareError
    requires i < |batch| && !ItemIsGood(batch, i)
  {
    if exists j :: 0 <= j < i && batch[j].credentialId == batch[i].credentialId then DuplicateIdentity
    else ValidateBuilder(batch[i].builder, batch[i].signatureAlgorithm).error
  }

  /** Validation succeeds exactly when every item is good, and otherwise reports
      the error of the first item that is not; a repeated identity wins over
      that item's own errors. */
  method ValidateMdocBatch(batch: seq<BatchItem>) returns (r: Result<seq<ValidatedItem>, PrepareError>)
    ensures r.Success? <==> forall i :: 0 <= i < |batch| ==> ItemIsGood(batch, i)
    ensures r.Success? ==>
              && |r.value| == |batch|
              && (forall i, j :: 0 <= i < j < |batch| ==> batch[i].credentialId != batch[j].credentialId)
              && forall i :: 0 <= i < |batch| ==>
                   && r.value[i].credentialId == batch[i].credentialId
                   && Success(r.value[i].inputs) == ValidateBuilder(batch[i].builder, batch[i].signatureAlgorithm)
    ensures r.Failure? ==>
              exists n :: 0 <= n < |batch| && !ItemIsGood(batch, n) && r.error == ItemError(batch, n)
                          && forall i :: 0 <= i < n ==> ItemIsGood(batch, i)
  {
    hide ValidateBuilder;
    var credentialIds: set<U64> := {};
    var validated: seq<ValidatedItem> := [];
    for n := 0 to |batch|
      invariant |validated| == n
      invariant forall i :: 0 <= i < n ==> batch[i].credentialId in credentialIds
      invariant forall c :: c in credentialIds ==> exists i :: 0 <= i < n && batch[i].credentialId == c
      invariant forall i :: 0 <= i < n ==> ItemIsGood(batch, i)
      invariant forall i :: 0 <= i < n ==>
                  && validated[i].credentialId == batch[i].credentialId
                  && Success(validated[i].inputs) == ValidateBuilder(batch[i].builder, batch[i].signatureAlgorithm)
    {
      var item := batch[n];
      if item.credentialId in credentialIds {
        assert !ItemIsGood(batch, n);
        return Failure(DuplicateIdentity);
      }
      credentialIds := credentialIds + {item.credentialId};
      var inputs := ValidateBuilder(item.builder, item.signatureAlgorithm);
      if inputs.Failure? {
        assert !ItemIsGood(batch, n);
        return Failure(inputs.error);
      }
      assert ItemIsGood(batch, n);
      validated := validated + [ValidatedItem(item.credentialId, inputs.value)];
    }
    forall i, j | 0 <= i < j < |batch|
      ensures batch[i].credentialId != batch[j].credentialId
    {
      assert ItemIsGood(batch, j);
    }
    r := Success(validated);
  }

  // ---------- Preparation as a function of the tape ----------

  datatype PlannedItem = PlannedItem(item: ValidatedItem, issuerNamespaces: seq<IssuerNamespace>, plan: DigestPlan)

  type Preparation<T> = Result<(T, Tape), PrepareError>

  function PlanOne(encode: Encoder, credentialId: U64, inputs: Inputs, tape: Tape)
    : Issued<(seq<IssuerNamespace>, DigestPlan)>
  {
    match IssuerNamespacesOf(encode, inputs.namespaces, tape)
    case Failure(error) => Failure(error)
    case Success((issued, t1)) =>
      match PlanOf(credentialId, issued, inputs.digestAlgorithm, inputs.enableDecoyDigests, t1)
      case Failure(error) => Failure(error)
      case Success((plan, t2)) => Success(((issued, plan), t2))
  }

  function PlanAll(encode: Encoder, items: seq<ValidatedItem>, tape: Tape): Issued<seq<PlannedItem>> {
    if |items| == 0 then Success(([], tape))
    else
      match PlanOne(encode, items[0].credentialId, items[0].inputs, tape)
      case Failure(error) => Failure(error)
      case Success(((issued, plan), rest)) => Prepend([PlannedItem(items[0], issued, plan)],
                                                      PlanAll(encode, items[1..], rest))
  }

  function Plans(planned: seq<PlannedItem>): (r: seq<DigestPlan>)
    ensures |r| == |planned|
    ensures forall k :: 0 <= k < |r| ==> r[k] == planned[k].plan
  {
    seq(|planned|, k requires 0 <= k < |planned| => planned[k].plan)
  }

  function AllJobs(plans: seq<DigestPlan>): seq<DigestJob> {
    if |plans| == 0 then [] else plans[0].jobs + AllJobs(plans[1..])
  }

  function Finish(finish: Finisher, inputs: Inputs, issued: seq<IssuerNamespace>, valueDigests: NamespaceDigests)
    : Result<PreparedMdoc, PrepareError>
  {
    var mso := Mso(inputs.digestAlgorithm, valueDigests, inputs.deviceKeyInfo, inputs.docType, inputs.validityInfo);
    match finish(mso, inputs.signatureAlgorithm)
    case None => Failure(Finishing)
    case Some(payload) => Success(PreparedMdoc(inputs.docType, issued, mso, payload))
  }

  /** Items and maps side by side, up to the shorter of the two. */
  function FinishAll(finish: Finisher, planned: seq<PlannedItem>, maps: seq<NamespaceDigests>)
    : Result<seq<PreparedItem>, PrepareError>
  {
    if |planned| == 0 || |maps| == 0 then Success([])
    else
      match Finish(finish, planned[0].item.inputs, planned[0].issuerNamespaces, maps[0])
      case Failure(error) => Failure(error)
      case Success(prepared) =>
        match FinishAll(finish, planned[1..], maps[1..])
        case Failure(error) => Failure(error)
        case Success(others) => Success([PreparedItem(planned[0].item.credentialId, prepared)] + others)
  }

  ghost function PrepareItems(encode: Encoder, executor: Executor, finish: Finisher, items: seq<ValidatedItem>,
                              tape: Tape)
    : Preparation<seq<PreparedItem>>
  {
    match PlanAll(encode, items, tape)
    case Failure(error) => Failure(Planning(error))
    case Success((planned, rest)) =>
      match executor(AllJobs(Plans(planned)))
      case None => Failure(Executing)
      case Some(results) =>
        match AssembleBatches(Plans(planned), results)
        case Failure(error) => Failure(Assembling(error))
        case Success(maps) =>
          if |maps| != |planned| then Failure(Omitted)
          else
            match FinishAll(finish, planned, maps)
            case Failure(error) => Failure(error)
            case Success(prepared) => Success((prepared, rest))
  }

  const MDOC_CREDENTIAL_ID: U64 := 0

  ghost function PrepareOne(encode: Encoder, executor: Executor, finish: Finisher, inputs: Inputs, tape: Tape)
    : Preparation<PreparedMdoc>
  {
    match PlanOne(encode, MDOC_CREDENTIAL_ID, inputs, tape)
    case Failure(error) => Failure(Planning(error))
    case Success(((issued, plan), rest)) =>
      match executor(plan.jobs)
      case None => Failure(Executing)
      case Some(results) =>
        match Assemble(plan, results)
        case Failure(error) => Failure(Assembling(error))
        case Success(valueDigests) =>
          match Finish(finish, inputs, issued, valueDigests)
          case Failure(error) => Failure(error)
          case Success(prepared) => Success((prepared, rest))
  }

  // ---------- Where preparation stops ----------

  /** The jobs of a batch are those of its plans, in order. */
  lemma {:induction false} AllJobsFollow(a: seq<DigestPlan>, b: seq<DigestPlan>)
    ensures AllJobs(a + b) == AllJobs(a) + AllJobs(b)
    ensures |a| == 1 ==> AllJobs(a) == a[0].jobs
  {
    if |a| == 0 {
      assert a + b == b;
    } else {
      assert (a + b)[1..] == a[1..] + b;
      AllJobsFollow(a[1..], b);
      assert |a| == 1 ==> a[1..] == [];
    }
  }

  /** An item is planned with the error of issuing, or else of planning. */
  lemma PlanOneStops(encode: Encoder, credentialId: U64, inputs: Inputs, tape: Tape)
    ensures var r := PlanOne(encode, credentialId, inputs, tape);
      var issuing := IssuerNamespacesOf(encode, inputs.namespaces, tape);
      if issuing.Failure? then r == Failure(issuing.error)
      else
        var planning := PlanOf(credentialId, issuing.value.0, inputs.digestAlgorithm, inputs.enableDecoyDigests,
                               issuing.value.1);
        && (r.Failure? <==> planning.Failure?)
        && (r.Failure? ==> r.error == planning.error)
  {
    hide IssuerNamespacesOf, PlanOf;
  }

  /** A preparation stops with the error of the first stage that fails: planning,
      the executor, assembly, finishing. */
  lemma PreparationStops(encode: Encoder, executor: Executor, finish: Finisher, inputs: Inputs, tape: Tape)
    ensures var r := PrepareOne(encode, executor, finish, inputs, tape);
      var planning := PlanOne(encode, MDOC_CREDENTIAL_ID, inputs, tape);
      var executed := planning.Success? && executor(planning.value.0.1.jobs).Some?;
      var assembly := if executed then Some(Assemble(planning.value.0.1, executor(planning.value.0.1.jobs).value))
                      else None;
      && (planning.Failure? <==> r.Failure? && r.error.Planning?)
      && (planning.Failure? ==> r.error.plan == planning.error)
      && (planning.Success? && !executed <==> r == Failure(Executing))
      && (assembly.Some? && assembly.value.Failure? <==> r.Failure? && r.error.Assembling?)
      && (assembly.Some? && assembly.value.Failure? ==> r.error.assembly == assembly.value.error)
      && (r.Failure? ==> r.error.Planning? || r.error == Executing || r.error.Assembling? || r.error == Finishing)
  {
    hide PlanOne, Assemble;
  }

  /** So does a batch, over all its items; no plan is left without its maps. */
  lemma {:induction false} BatchStops(encode: Encoder, executor: Executor, finish: Finisher,
                                      items: seq<ValidatedItem>, tape: Tape)
    ensures var r := PrepareItems(encode, executor, finish, items, tape);
      var planning := PlanAll(encode, items, tape);
      var plans := if planning.Success? then Plans(planning.value.0) else [];
      var executed := planning.Success? && executor(AllJobs(plans)).Some?;
      var assembly := if executed then Some(AssembleBatches(plans, executor(AllJobs(plans)).value)) else None;
      && (planning.Failure? <==> r.Failure? && r.error.Planning?)
      && (planning.Failure? ==> r.error.plan == planning.error)
      && (planning.Success? && !executed <==> r == Failure(Executing))
      && (assembly.Some? && assembly.value.Failure? <==> r.Failure? && r.error.Assembling?)
      && (assembly.Some? && assembly.value.Failure? ==> r.error.assembly == assembly.value.error)
      && (r.Failure? ==> r.error.Planning? || r.error == Executing || r.error.Assembling? || r.error == Finishing)
  {
    hide PlanAll, AllJobs, AssemblePlans, FinishAll, ByIdentity;
    var planning := PlanAll(encode, items, tape);
    if planning.Success? {
      var plans := Plans(planning.value.0);
      var results := executor(AllJobs(plans));
      if results.Some? {
        MapsAreCounted(plans, ByIdentity(results.value), {}, []);
        if AssembleBatches(plans, results.value).Success? {
          FinishingError(finish, planning.value.0, AssembleBatches(plans, results.value).value);
        }
      }
    }
  }

  lemma {:induction false} MapsAreCounted(plans: seq<DigestPlan>, available: Available, seen: set<U64>,
                                          batches: seq<NamespaceDigests>)
    ensures var r := AssemblePlans(plans, available, seen, batches);
      r.Success? ==> |r.value| == |batches| + |plans|
  {
    hide AssemblePlan;
    if |plans| > 0 {
      var first := AssemblePlan(plans[0], available);
      if first.Success? {
        MapsAreCounted(plans[1..], first.value.0, seen + {plans[0].credentialId}, batches + [first.value.1]);
      }
    }
  }

  lemma {:induction false} FinishingError(finish: Finisher, planned: seq<PlannedItem>, maps: seq<NamespaceDigests>)
    ensures FinishAll(finish, planned, maps).Failure? ==> FinishAll(finish, planned, maps).error == Finishing
  {
    if |planned| > 0 && |maps| > 0 {
      FinishingError(finish, planned[1..], maps[1..]);
    }
  }

  // ---------- Preparation as the source runs it ----------

  method PlanItem(encode: Encoder, credentialId: U64, inputs: Inputs, rng: Rng)
    returns (r: Result<(seq<IssuerNamespace>, DigestPlan), PlanError>)
    modifies rng
    ensures match PlanOne(encode, credentialId, inputs, old(rng.tape))
      case Failure(error) => r == Failure(error)
      case Success((planned, rest)) => r == Success(planned) && rng.tape == rest
  {
    hide IssuerNamespacesOf, PlanOf;
    var issued := ToIssuerNamespaces(encode, inputs.namespaces, rng);
    if issued.Failure? {
      return Failure(issued.error);
    }
    var plan := PlanDigestNamespacesForCredential(credentialId, issued.value, inputs.digestAlgorithm,
                                                  inputs.enableDecoyDigests, rng);
    if plan.Failure? {
      return Failure(plan.error);
    }
    r := Success((issued.value, plan.value));
  }

  method PrepareMdoc(encode: Encoder, executor: Executor, finish: Finisher, inputs: Inputs, rng: Rng)
    returns (r: Result<PreparedMdoc, PrepareError>)
    modifies rng
    ensures match PrepareOne(encode, executor, finish, inputs, old(rng.tape))
      case Failure(error) => r == Failure(error)
      case Success((prepared, rest)) => r == Success(prepared) && rng.tape == rest
  {
    hide PlanOne, Assemble;
    var planned := PlanItem(encode, MDOC_CREDENTIAL_ID, inputs, rng);
    if planned.Failure? {
      return Failure(Planning(planned.error));
    }
    var (issued, plan) := planned.value;
    var results := executor(plan.jobs);
    if results.None? {
      return Failure(Executing);
    }
    var valueDigests := AssembleDigestNamespaces(plan, results.value);
    if valueDigests.Failure? {
      return Failure(Assembling(valueDigests.error));
    }
    r := Finish(finish, inputs, issued, valueDigests.value);
  }

  method PlanBatch(encode: Encoder, items: seq<ValidatedItem>, rng: Rng)
    returns (r: Result<seq<PlannedItem>, PlanError>, digestPlans: seq<DigestPlan>)
    modifies rng
    ensures match PlanAll(encode, items, old(rng.tape))
      case Failure(error) => r == Failure(error)
      case Success((planned, rest)) => r == Success(planned) && rng.tape == rest && digestPlans == Plans(planned)
  {
    hide PlanOne;
    var planned: seq<PlannedItem> := [];
    digestPlans := [];
    assert items[0..] == items;
    PrependNothing(PlanAll(encode, items, rng.tape));
    for n := 0 to |items|
      invariant digestPlans == Plans(planned)
      invariant PlanAll(encode, items, old(rng.tape)) == Prepend(planned, PlanAll(encode, items[n..], rng.tape))
    {
      assert items[n..][1..] == items[n + 1..];
      var one := PlanItem(encode, items[n].credentialId, items[n].inputs, rng);
      if one.Failure? {
        return Failure(one.error), digestPlans;
      }
      var (issued, plan) := one.value;
      PrependTwice(planned, [PlannedItem(items[n], issued, plan)], PlanAll(encode, items[n + 1..], rng.tape));
      planned := planned + [PlannedItem(items[n], issued, plan)];
      digestPlans := digestPlans + [plan];
    }
    assert items[|items|..] == [] && planned + [] == planned;
    r := Success(planned);
  }

  method CollectJobs(plans: seq<DigestPlan>) returns (jobs: seq<DigestJob>)
    ensures jobs == AllJobs(plans)
  {
    jobs := [];
    assert plans[0..] == plans;
    for n := 0 to |plans|
      invariant AllJobs(plans) == jobs + AllJobs(plans[n..])
    {
      assert plans[n..][1..] == plans[n + 1..];
      jobs := jobs + plans[n].jobs;
    }
    assert plans[|plans|..] == [] && jobs + [] == jobs;
  }

  method FinishBatch(finish: Finisher, planned: seq<PlannedItem>, maps: seq<NamespaceDigests>)
    returns (r: Result<seq<PreparedItem>, PrepareError>)
    ensures r == FinishAll(finish, planned, maps)
  {
    hide Finish;
    var prepared: seq<PreparedItem> := [];
    assert planned[0..] == planned && maps[0..] == maps;
    ghost var whole := FinishAll(finish, planned, maps);
    assert whole.Success? ==> [] + whole.value == whole.value;
    var pairs := if |planned| < |maps| then |planned| else |maps|;
    for n := 0 to pairs
      invariant FinishAll(finish, planned, maps)
             == match FinishAll(finish, planned[n..], maps[n..])
                case Failure(error) => Failure(error)
                case Success(others) => Success(prepared + others)
    {
      assert planned[n..][1..] == planned[n + 1..] && maps[n..][1..] == maps[n + 1..];
      var one := Finish(finish, planned[n].item.inputs, planned[n].issuerNamespaces, maps[n]);
      if one.Failure? {
        return Failure(one.error);
      }
      var next := PreparedItem(planned[n].item.credentialId, one.value);
      ghost var others := FinishAll(finish, planned[n + 1..], maps[n + 1..]);
      assert others.Success? ==> (prepared + ([next] + others.value) == (prepared + [next]) + others.value);
      prepared := prepared + [next];
    }
    assert prepared + [] == prepared;
    r := Success(prepared);
  }

  method PrepareValidatedBatch(encode: Encoder, executor: Executor, finish: Finisher, items: seq<ValidatedItem>,
                               rng: Rng)
    returns (r: Result<seq<PreparedItem>, PrepareError>)
    modifies rng
    ensures match PrepareItems(encode, executor, finish, items, old(rng.tape))
      case Failure(error) => r == Failure(error)
      case Success((prepared, rest)) => r == Success(prepared) && rng.tape == rest
  {
    hide PlanAll, AssembleBatches, FinishAll, AllJobs;
    var planned, digestPlans := PlanBatch(encode, items, rng);
    if planned.Failure? {
      return Failure(Planning(planned.error));
    }
    var jobs := CollectJobs(digestPlans);
    var results := executor(jobs);
    if results.None? {
      return Failure(Executing);
    }
    var maps := AssembleReorderedDigestBatches(digestPlans, results.value);
    if maps.Failure? {
      return Failure(Assembling(maps.error));
    }
    if |maps.value| != |planned.value| {
      return Failure(Omitted);
    }
    r := FinishBatch(finish, planned.value, maps.value);
  }

  /** Nothing is drawn from the tape before the whole batch is valid. */
  method PrepareMdocBatch(encode: Encoder, executor: Executor, finish: Finisher, batch: seq<BatchItem>, rng: Rng)
    returns (r: Result<seq<PreparedItem>, PrepareError>, ghost items: seq<ValidatedItem>)
    modifies rng
    ensures (exists i :: 0 <= i < |batch| && !ItemIsGood(batch, i)) ==>
              && rng.tape == old(rng.tape)
              && exists n :: 0 <= n < |batch| && !ItemIsGood(batch, n) && r == Failure(ItemError(batch, n))
                             && forall i :: 0 <= i < n ==> ItemIsGood(batch, i)
    ensures (forall i :: 0 <= i < |batch| ==> ItemIsGood(batch, i)) ==>
              && |items| == |batch|
              && (forall i :: 0 <= i < |batch| ==>
                    && items[i].credentialId == batch[i].credentialId
                    && Success(items[i].inputs) == ValidateBuilder(batch[i].builder, batch[i].signatureAlgorithm))
              && (batch == [] ==> r == Success([]) && rng.tape == old(rng.tape))
              && (batch != [] ==>
                    match PrepareItems(encode, executor, finish, items, old(rng.tape))
                    case Failure(error) => r == Failure(error)
                    case Success((prepared, rest)) => r == Success(prepared) && rng.tape == rest)
  {
    hide ValidateBuilder, PrepareItems, ItemError;
    var validated := ValidateMdocBatch(batch);
    if validated.Failure? {
      items := [];
      return Failure(validated.error), items;
    }
    items := validated.value;
    if |validated.value| == 0 {
      return Success([]), items;
    }
    r := PrepareValidatedBatch(encode, executor, finish, validated.value, rng);
  }
}
