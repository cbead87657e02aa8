/** From issuer namespaces to digest jobs: the planner of src/issuance/mdoc.rs. */
module MdocDigestPlan {
  import opened Fips180
  import opened DigestTypes
  import opened MdocPlanning
  import Cbor

  datatype PlannedDigest = PlannedDigest(credentialId: U64, jobId: U64, digestId: nat)
  datatype PlannedNamespace = PlannedNamespace(name: string, digests: seq<PlannedDigest>)
  datatype DigestPlan = DigestPlan(credentialId: U64, namespaces: seq<PlannedNamespace>, jobs: seq<DigestJob>)

  /** `next_job_id` and `jobs` as a value. */
  datatype Queue = Queue(next: U64, jobs: seq<DigestJob>)

  /** A planning step's output with the queue and tape it leaves. */
  datatype Planned<T> = Planned(queue: Queue, out: T, tape: Tape)

  type Planning<T> = Result<Planned<T>, PlanError>

  function AddFirst<T>(first: seq<T>, others: Planning<seq<T>>): Planning<seq<T>> {
    if others.Failure? then others else Success(others.value.(out := first + others.value.out))
  }

  lemma AddNothing<T>(others: Planning<seq<T>>)
    ensures AddFirst([], others) == others
  {
    assert others.Success? ==> [] + others.value.out == others.value.out;
  }

  lemma AddTwice<T>(a: seq<T>, b: seq<T>, others: Planning<seq<T>>)
    ensures AddFirst(a, AddFirst(b, others)) == AddFirst(a + b, others)
  {
    assert others.Success? ==> (a + (b + others.value.out) == (a + b) + others.value.out);
  }

  /** What is hashed for a real item: its tag-24 encoding. */
  function ItemInput(item: IssuedItem): seq<Byte> {
    Cbor.Encode(Cbor.Tag24(item.innerBytes))
  }

  /** So it reads back as a tag-24 byte string with exactly the item's bytes. */
  lemma ItemInputIsTagged(item: IssuedItem)
    ensures Cbor.IsTaggedBytes(ItemInput(item), item.innerBytes)
  {
    hide Cbor.Encode, Cbor.IsTaggedBytes;
    Cbor.TaggedBytesRead(item.innerBytes);
  }

  // ---------- The planner as a function of the tape ----------

  function Push(credentialId: U64, digestId: nat, ordinal: nat, algorithm: DigestAlgorithm, input: seq<Byte>, q: Queue)
    : Result<(Queue, PlannedDigest), PlanError>
  {
    if q.next + 1 >= TWO_64 then Failure(TooManyJobs)
    else Success((Queue(q.next + 1, q.jobs + [DigestJob(credentialId, q.next, ordinal, algorithm, input)]),
                  PlannedDigest(credentialId, q.next, digestId)))
  }

  function PlanItems(credentialId: U64, items: seq<IssuedItem>, ordinal: nat, algorithm: DigestAlgorithm, q: Queue,
                     tape: Tape)
    : Planning<seq<PlannedDigest>>
  {
    if |items| == 0 then Success(Planned(q, [], tape))
    else
      match Push(credentialId, items[0].item.digestId, ordinal, algorithm, ItemInput(items[0]), q)
      case Failure(error) => Failure(error)
      case Success((q1, digest)) => AddFirst([digest],
                                             PlanItems(credentialId, items[1..], ordinal + 1, algorithm, q1, tape))
  }

  function PlanDecoys(credentialId: U64, count: nat, ordinal: nat, algorithm: DigestAlgorithm, used: set<nat>, q: Queue,
                      tape: Tape)
    : Planning<seq<PlannedDigest>>
  {
    if count == 0 then Success(Planned(q, [], tape))
    else
      match DrawDigestId(used, tape)
      case None => Failure(TapeExhausted)
      case Some((id, t1)) =>
        if |t1| == 0 then Failure(TapeExhausted)
        else
          match Push(credentialId, id, ordinal, algorithm, t1[0].asFill, q)
          case Failure(error) => Failure(error)
          case Success((q1, digest)) =>
            AddFirst([digest], PlanDecoys(credentialId, count - 1, ordinal + 1, algorithm, used + {id}, q1, t1[1..]))
  }

  function DigestIdsOf(items: seq<IssuedItem>): set<nat> {
    set i | 0 <= i < |items| :: items[i].item.digestId
  }

  function PlanNamespace(credentialId: U64, items: seq<IssuedItem>, algorithm: DigestAlgorithm, enableDecoys: bool,
                         q: Queue, tape: Tape)
    : Planning<seq<PlannedDigest>>
  {
    if enableDecoys && |tape| == 0 then Failure(TapeExhausted)
    else
      var decoyCount := if enableDecoys then tape[0].asDecoyCount else 0;
      var t1 := if enableDecoys then tape[1..] else tape;
      var used := if decoyCount > 0 then DigestIdsOf(items) else {};
      match PlanItems(credentialId, items, 0, algorithm, q, t1)
      case Failure(error) => Failure(error)
      case Success(items1) =>
        AddFirst(items1.out, PlanDecoys(credentialId, decoyCount, |items|, algorithm, used, items1.queue, items1.tape))
  }

  function PlanNamespaces(credentialId: U64, namespaces: seq<IssuerNamespace>, algorithm: DigestAlgorithm,
                          enableDecoys: bool, q: Queue, tape: Tape)
    : Planning<seq<PlannedNamespace>>
  {
    if |namespaces| == 0 then Success(Planned(q, [], tape))
    else
      match PlanNamespace(credentialId, namespaces[0].items, algorithm, enableDecoys, q, tape)
      case Failure(error) => Failure(error)
      case Success(p) =>
        AddFirst([PlannedNamespace(namespaces[0].name, p.out)],
                 PlanNamespaces(credentialId, namespaces[1..], algorithm, enableDecoys, p.queue, p.tape))
  }

  const EMPTY_QUEUE := Queue(0, [])

  function PlanOf(credentialId: U64, namespaces: seq<IssuerNamespace>, algorithm: DigestAlgorithm, enableDecoys: bool,
                  tape: Tape)
    : Issued<DigestPlan>
  {
    match PlanNamespaces(credentialId, namespaces, algorithm, enableDecoys, EMPTY_QUEUE, tape)
    case Failure(error) => Failure(error)
    case Success(p) => Success((DigestPlan(credentialId, p.out, p.queue.jobs), p.tape))
  }

  // ---------- The planner as the source runs it ----------

  class JobQueue {
    var nextJobId: U64
    var jobs: seq<DigestJob>

    constructor ()
      ensures Value() == EMPTY_QUEUE
    {
      nextJobId := 0;
      jobs := [];
    }

    function Value(): Queue
      reads this
    {
      Queue(nextJobId, jobs)
    }

    method PushPlannedDigest(credentialId: U64, digestId: nat, ordinal: nat, algorithm: DigestAlgorithm,
                             input: seq<Byte>)
      returns (r: Result<PlannedDigest, PlanError>)
      modifies this
      ensures match Push(credentialId, digestId, ordinal, algorithm, input, old(Value()))
        case Failure(error) => r == Failure(error) && Value() == old(Value())
        case Success((q, digest)) => r == Success(digest) && Value() == q
    {
      var jobId := nextJobId;
      if nextJobId + 1 >= TWO_64 {
        return Failure(TooManyJobs);
      }
      nextJobId := nextJobId + 1;
      jobs := jobs + [DigestJob(credentialId, jobId, ordinal, algorithm, input)];
      r := Success(PlannedDigest(credentialId, jobId, digestId));
    }
  }

  method PlanRealItems(credentialId: U64, items: seq<IssuedItem>, algorithm: DigestAlgorithm, rng: Rng, queue: JobQueue)
    returns (r: Result<seq<PlannedDigest>, PlanError>)
    modifies queue
    ensures match PlanItems(credentialId, items, 0, algorithm, old(queue.Value()), rng.tape)
      case Failure(error) => r == Failure(error)
      case Success(p) => r == Success(p.out) && queue.Value() == p.queue
  {
    hide ItemInput, Push;
    var planned: seq<PlannedDigest> := [];
    assert items[0..] == items;
    AddNothing(PlanItems(credentialId, items, 0, algorithm, queue.Value(), rng.tape));
    for ordinal := 0 to |items|
      invariant PlanItems(credentialId, items, 0, algorithm, old(queue.Value()), rng.tape)
             == AddFirst(planned, PlanItems(credentialId, items[ordinal..], ordinal, algorithm, queue.Value(),
                                            rng.tape))
    {
      assert items[ordinal..][1..] == items[ordinal + 1..];
      var item := items[ordinal];
      var digest := queue.PushPlannedDigest(credentialId, item.item.digestId, ordinal, algorithm, ItemInput(item));
      if digest.Failure? {
        return Failure(digest.error);
      }
      AddTwice(planned, [digest.value],
               PlanItems(credentialId, items[ordinal + 1..], ordinal + 1, algorithm, queue.Value(), rng.tape));
      planned := planned + [digest.value];
    }
    assert items[|items|..] == [] && planned + [] == planned;
    r := Success(planned);
  }

  method PlanDecoyItems(credentialId: U64, decoyCount: nat, firstOrdinal: nat, algorithm: DigestAlgorithm,
                        used: set<nat>,
                        rng: Rng, queue: JobQueue)
    returns (r: Result<seq<PlannedDigest>, PlanError>)
    modifies rng, queue
    ensures match PlanDecoys(credentialId, decoyCount, firstOrdinal, algorithm, used, old(queue.Value()), old(rng.tape))
      case Failure(error) => r == Failure(error)
      case Success(p) => r == Success(p.out) && queue.Value() == p.queue && rng.tape == p.tape
  {
    hide Push;
    var planned: seq<PlannedDigest> := [];
    var usedIds := used;
    AddNothing(PlanDecoys(credentialId, decoyCount, firstOrdinal, algorithm, used, queue.Value(), rng.tape));
    for decoyOrdinal := 0 to decoyCount
      invariant PlanDecoys(credentialId, decoyCount, firstOrdinal, algorithm, used, old(queue.Value()), old(rng.tape))
             == AddFirst(planned, PlanDecoys(credentialId, decoyCount - decoyOrdinal, firstOrdinal + decoyOrdinal,
                                             algorithm,
                                             usedIds, queue.Value(), rng.tape))
    {
      var digestId;
      digestId, usedIds := GenerateDigestId(usedIds, rng);
      if digestId.None? {
        return Failure(TapeExhausted);
      }
      var bytes := rng.Next();
      if bytes.None? {
        return Failure(TapeExhausted);
      }
      var digest := queue.PushPlannedDigest(credentialId, digestId.value, firstOrdinal + decoyOrdinal, algorithm,
                                            bytes.value.asFill);
      if digest.Failure? {
        return Failure(digest.error);
      }
      AddTwice(planned, [digest.value],
               PlanDecoys(credentialId, decoyCount - decoyOrdinal - 1, firstOrdinal + decoyOrdinal + 1, algorithm,
                          usedIds, queue.Value(), rng.tape));
      planned := planned + [digest.value];
    }
    assert planned + [] == planned;
    r := Success(planned);
  }

  method PlanDigestNamespace(credentialId: U64, items: seq<IssuedItem>, algorithm: DigestAlgorithm,
                             enableDecoyDigests: bool,
                             rng: Rng, queue: JobQueue)
    returns (r: Result<seq<PlannedDigest>, PlanError>)
    modifies rng, queue
    ensures match PlanNamespace(credentialId, items, algorithm, enableDecoyDigests, old(queue.Value()), old(rng.tape))
      case Failure(error) => r == Failure(error)
      case Success(p) => r == Success(p.out) && queue.Value() == p.queue && rng.tape == p.tape
  {
    hide PlanItems, PlanDecoys;
    var decoyCount: nat := 0;
    if enableDecoyDigests {
      var draw := rng.Next();
      if draw.None? {
        return Failure(TapeExhausted);
      }
      decoyCount := draw.value.asDecoyCount;
    }
    var usedIds := {};
    if decoyCount > 0 {
      usedIds := DigestIdsOf(items);
    }
    TapeIsKept(credentialId, items, 0, algorithm, queue.Value(), rng.tape);
    var realItems := PlanRealItems(credentialId, items, algorithm, rng, queue);
    if realItems.Failure? {
      return realItems;
    }
    var decoys := PlanDecoyItems(credentialId, decoyCount, |items|, algorithm, usedIds, rng, queue);
    if decoys.Failure? {
      return decoys;
    }
    r := Success(realItems.value + decoys.value);
  }

  method PlanDigestNamespacesForCredential(credentialId: U64, namespaces: seq<IssuerNamespace>,
                                           algorithm: DigestAlgorithm,
                                           enableDecoyDigests: bool, rng: Rng)
    returns (r: Result<DigestPlan, PlanError>)
    modifies rng
    ensures match PlanOf(credentialId, namespaces, algorithm, enableDecoyDigests, old(rng.tape))
      case Failure(error) => r == Failure(error)
      case Success((plan, rest)) => r == Success(plan) && rng.tape == rest
  {
    hide PlanNamespace;
    var queue := new JobQueue();
    var planned: seq<PlannedNamespace> := [];
    assert namespaces[0..] == namespaces;
    AddNothing(PlanNamespaces(credentialId, namespaces, algorithm, enableDecoyDigests, EMPTY_QUEUE, rng.tape));
    for n := 0 to |namespaces|
      invariant PlanNamespaces(credentialId, namespaces, algorithm, enableDecoyDigests, EMPTY_QUEUE, old(rng.tape))
             == AddFirst(planned, PlanNamespaces(credentialId, namespaces[n..], algorithm, enableDecoyDigests,
                                                 queue.Value(), rng.tape))
    {
      assert namespaces[n..][1..] == namespaces[n + 1..];
      var digests := PlanDigestNamespace(credentialId, namespaces[n].items, algorithm, enableDecoyDigests, rng, queue);
      if digests.Failure? {
        return Failure(digests.error);
      }
      var next := PlannedNamespace(namespaces[n].name, digests.value);
      AddTwice(planned, [next],
               PlanNamespaces(credentialId, namespaces[n + 1..], algorithm, enableDecoyDigests, queue.Value(),
                              rng.tape));
      planned := planned + [next];
    }
    assert namespaces[|namespaces|..] == [] && planned + [] == planned;
    r := Success(DigestPlan(credentialId, planned, queue.jobs));
  }

  lemma {:induction false} TapeIsKept(credentialId: U64, items: seq<IssuedItem>, ordinal: nat,
                                      algorithm: DigestAlgorithm, q: Queue, tape: Tape)
    ensures var r := PlanItems(credentialId, items, ordinal, algorithm, q, tape); r.Success? ==> r.value.tape == tape
  {
    hide ItemInput;
    if |items| > 0 {
      var push := Push(credentialId, items[0].item.digestId, ordinal, algorithm, ItemInput(items[0]), q);
      if push.Success? {
        TapeIsKept(credentialId, items[1..], ordinal + 1, algorithm, push.value.0, tape);
      }
    }
  }

  // ---------- What a plan looks like ----------

  /** `out` was pushed onto `q`, giving `q'`: job ids count up from `q.next`,
      each planned digest names the job pushed with it. */
  ghost predicate Pushed(credentialId: U64, algorithm: DigestAlgorithm, firstOrdinal: nat, q: Queue, q': Queue,
                         out: seq<PlannedDigest>)
  {
    && |q'.jobs| == |q.jobs| + |out|
    && q'.jobs[..|q.jobs|] == q.jobs
    && q'.next == q.next + |out|
    && forall k :: |q.jobs| <= k < |q'.jobs| ==>
         PairedAt(credentialId, algorithm, firstOrdinal + k - |q.jobs|, q.next + k - |q.jobs|, out[k - |q.jobs|],
                  q'.jobs[k])
  }

  predicate PairedAt(credentialId: U64, algorithm: DigestAlgorithm, ordinal: nat, jobId: nat, digest: PlannedDigest,
                     job: DigestJob)
  {
    && digest.credentialId == credentialId && digest.jobId == jobId
    && job.credentialId == credentialId && job.jobId == jobId && job.ordinal == ordinal && job.algorithm == algorithm
  }

  lemma PushedCons(credentialId: U64, algorithm: DigestAlgorithm, ordinal: nat, q: Queue, q1: Queue, q': Queue,
                   digest: PlannedDigest, others: seq<PlannedDigest>)
    requires Pushed(credentialId, algorithm, ordinal, q, q1, [digest])
    requires Pushed(credentialId, algorithm, ordinal + 1, q1, q', others)
    ensures Pushed(credentialId, algorithm, ordinal, q, q', [digest] + others)
    ensures |q1.jobs| == |q.jobs| + 1 && |q'.jobs| == |q1.jobs| + |others|
    ensures q'.jobs[|q.jobs|] == q1.jobs[|q.jobs|]
  {
    hide PairedAt;
    assert q'.jobs[..|q1.jobs|] == q1.jobs;
    assert q'.jobs[..|q.jobs|] == q1.jobs[..|q.jobs|];
    assert q'.jobs[|q.jobs|] == q1.jobs[|q.jobs|];
  }

  lemma NothingPushed(credentialId: U64, algorithm: DigestAlgorithm, ordinal: nat, q: Queue)
    ensures Pushed(credentialId, algorithm, ordinal, q, q, [])
  {
  }

  lemma {:induction false} ItemsArePushed(credentialId: U64, items: seq<IssuedItem>, ordinal: nat,
                                          algorithm: DigestAlgorithm, q: Queue, tape: Tape)
    requires PlanItems(credentialId, items, ordinal, algorithm, q, tape).Success?
    ensures var p := PlanItems(credentialId, items, ordinal, algorithm, q, tape).value;
      && Pushed(credentialId, algorithm, ordinal, q, p.queue, p.out)
      && |p.out| == |items|
      && |p.queue.jobs| == |q.jobs| + |items|
      && (forall i :: 0 <= i < |items| ==> p.out[i].digestId == items[i].item.digestId)
      && (forall k :: |q.jobs| <= k < |p.queue.jobs| ==> p.queue.jobs[k].input == ItemInput(items[k - |q.jobs|]))
  {
    hide ItemInput, Pushed, Push;
    if |items| == 0 {
      NothingPushed(credentialId, algorithm, ordinal, q);
    } else {
      var (q1, digest) := Push(credentialId, items[0].item.digestId, ordinal, algorithm, ItemInput(items[0]), q).value;
      OnePushed(credentialId, items[0].item.digestId, ordinal, algorithm, ItemInput(items[0]), q);
      ItemsArePushed(credentialId, items[1..], ordinal + 1, algorithm, q1, tape);
      var others := PlanItems(credentialId, items[1..], ordinal + 1, algorithm, q1, tape).value;
      PushedCons(credentialId, algorithm, ordinal, q, q1, others.queue, digest, others.out);
    }
  }

  lemma OnePushed(credentialId: U64, digestId: nat, ordinal: nat, algorithm: DigestAlgorithm, input: seq<Byte>,
                  q: Queue)
    requires Push(credentialId, digestId, ordinal, algorithm, input, q).Success?
    ensures var (q1, digest) := Push(credentialId, digestId, ordinal, algorithm, input, q).value;
      && Pushed(credentialId, algorithm, ordinal, q, q1, [digest])
      && |q1.jobs| == |q.jobs| + 1 && q1.jobs[|q.jobs|].input == input
      && digest.digestId == digestId
  {
  }

  lemma {:induction false} DecoysArePushed(credentialId: U64, count: nat, ordinal: nat, algorithm: DigestAlgorithm,
                                           used: set<nat>, q: Queue, tape: Tape)
    requires PlanDecoys(credentialId, count, ordinal, algorithm, used, q, tape).Success?
    ensures var p := PlanDecoys(credentialId, count, ordinal, algorithm, used, q, tape).value;
      && Pushed(credentialId, algorithm, ordinal, q, p.queue, p.out)
      && |p.out| == count
      && IsRestOf(p.tape, tape) && (count == 0 ==> p.tape == tape)
      && (forall k :: |q.jobs| <= k < |p.queue.jobs| ==>
            IsDecoy(Span(tape, -1, |tape| - |p.tape|), p.out[k - |q.jobs|].digestId, p.queue.jobs[k].input))
      && (forall i :: 0 <= i < count ==> p.out[i].digestId !in used)
      && DistinctDigestIds(p.out)
  {
    hide Pushed, Push, IsDecoy, DrawDigestId, Within;
    if count == 0 {
      NothingPushed(credentialId, algorithm, ordinal, q);
    } else {
      DrawnIdIsFresh(used, tape);
      var (id, t1) := DrawDigestId(used, tape).value;
      var (q1, digest) := Push(credentialId, id, ordinal, algorithm, t1[0].asFill, q).value;
      OnePushed(credentialId, id, ordinal, algorithm, t1[0].asFill, q);
      DecoyIsDrawn(used, tape);
      var t2 := t1[1..];
      DecoysArePushed(credentialId, count - 1, ordinal + 1, algorithm, used + {id}, q1, t2);
      var others := PlanDecoys(credentialId, count - 1, ordinal + 1, algorithm, used + {id}, q1, t2).value;
      PushedCons(credentialId, algorithm, ordinal, q, q1, others.queue, digest, others.out);
      assert forall i :: 0 <= i < count - 1 ==> others.out[i].digestId != id;
      SpanOfRest(others.tape, t2, tape, -1);
      DecoysStay(Span(t2, -1, |t2| - |others.tape|), Span(tape, -1, |tape| - |others.tape|), others.out,
                 others.queue.jobs, |q1.jobs|);
    }
  }

  lemma DecoysStay(inner: Span, outer: Span, digests: seq<PlannedDigest>, jobs: seq<DigestJob>, start: nat)
    requires Within(inner, outer) && |jobs| == start + |digests|
    requires forall k :: start <= k < |jobs| ==> IsDecoy(inner, digests[k - start].digestId, jobs[k].input)
    ensures forall k :: start <= k < |jobs| ==> IsDecoy(outer, digests[k - start].digestId, jobs[k].input)
  {
    hide IsDecoy, Within;
    forall k | start <= k < |jobs|
      ensures IsDecoy(outer, digests[k - start].digestId, jobs[k].input)
    {
      DecoyWithin(inner, outer, digests[k - start].digestId, jobs[k].input);
    }
  }

  /** The ids of some planned digests. */
  ghost function PlannedIds(digests: seq<PlannedDigest>): set<nat> {
    set i | 0 <= i < |digests| :: digests[i].digestId
  }

  lemma PlannedIdsFirst(digests: seq<PlannedDigest>, n: nat)
    requires 0 < n <= |digests|
    ensures PlannedIds(digests[..n]) == {digests[0].digestId} + PlannedIds(digests[1..][..n - 1])
  {
    var head, tail := digests[..n], digests[1..][..n - 1];
    assert forall i :: 0 < i < n ==> head[i] == tail[i - 1];
    assert forall i :: 0 <= i < n - 1 ==> tail[i] == head[i + 1];
  }

  /** Decoys drawn end to end between the marks, from `at` on in the jobs: each id
      the first draw not used by an item or an earlier decoy, each input the draw
      right after it. */
  ghost predicate DecoysDrawnAt(tape: Tape, marks: seq<nat>, used: set<nat>, digests: seq<PlannedDigest>,
                                jobs: seq<DigestJob>, at: nat)
  {
    && |marks| == |digests| + 1 && at + |digests| <= |jobs|
    && forall i :: 0 <= i < |digests| ==>
         DecoyDrawnAt(tape, marks[i], marks[i + 1], used + PlannedIds(digests[..i]), digests[i], jobs[at + i])
  }

  ghost predicate DecoyDrawnAt(tape: Tape, from: nat, to: nat, used: set<nat>, digest: PlannedDigest,
                               job: DigestJob)
  {
    DrawnAt(tape, from, to, used, digest.digestId) && job.input == tape[to - 1].asFill && |job.input| == 512
  }

  lemma DecoysDrawnCons(tape: Tape, marks: seq<nat>, used: set<nat>, digests: seq<PlannedDigest>,
                        jobs: seq<DigestJob>, at: nat)
    requires |marks| == |digests| + 1 > 1 && at + |digests| <= |jobs|
    requires DecoyDrawnAt(tape, marks[0], marks[1], used, digests[0], jobs[at])
    requires DecoysDrawnAt(tape, marks[1..], used + {digests[0].digestId}, digests[1..], jobs, at + 1)
    ensures DecoysDrawnAt(tape, marks, used, digests, jobs, at)
  {
    hide DecoyDrawnAt;
    var id, others := digests[0].digestId, digests[1..];
    assert used + PlannedIds(digests[..0]) == used;
    forall i | 0 < i < |digests|
      ensures DecoyDrawnAt(tape, marks[i], marks[i + 1], used + PlannedIds(digests[..i]), digests[i], jobs[at + i])
    {
      PlannedIdsFirst(digests, i);
      assert used + PlannedIds(digests[..i]) == (used + {id}) + PlannedIds(others[..i - 1]);
      assert DecoyDrawnAt(tape, marks[1..][i - 1], marks[1..][i], (used + {id}) + PlannedIds(others[..i - 1]),
                          others[i - 1], jobs[at + 1 + (i - 1)]);
    }
  }

  lemma {:induction false} DecoysAreDrawn(credentialId: U64, count: nat, ordinal: nat, algorithm: DigestAlgorithm,
                                          used: set<nat>, q: Queue, tape: Tape, whole: Tape)
    returns (marks: seq<nat>)
    requires PlanDecoys(credentialId, count, ordinal, algorithm, used, q, tape).Success? && IsRestOf(tape, whole)
    ensures var p := PlanDecoys(credentialId, count, ordinal, algorithm, used, q, tape).value;
      && |p.out| == count && IsRestOf(p.tape, whole)
      && DecoysDrawnAt(whole, marks, used, p.out, p.queue.jobs, |q.jobs|)
      && marks[0] == |whole| - |tape| && marks[count] == |whole| - |p.tape|
  {
    hide Pushed, DrawDigestId, DecoyDrawnAt, IsDecoy;
    marks := [|whole| - |tape|];
    if count > 0 {
      DrawIsFirstUnused(used, tape, whole);
      var (id, t1) := DrawDigestId(used, tape).value;
      RestOfTail(t1, whole);
      var (q1, digest) := Push(credentialId, id, ordinal, algorithm, t1[0].asFill, q).value;
      var later := DecoysAreDrawn(credentialId, count - 1, ordinal + 1, algorithm, used + {id}, q1, t1[1..], whole);
      DecoysArePushed(credentialId, count - 1, ordinal + 1, algorithm, used + {id}, q1, t1[1..]);
      var others := PlanDecoys(credentialId, count - 1, ordinal + 1, algorithm, used + {id}, q1, t1[1..]).value;
      PushedMeans(credentialId, algorithm, ordinal + 1, q1, others.queue, others.out);
      var p := PlanDecoys(credentialId, count, ordinal, algorithm, used, q, tape).value;
      marks := marks + later;
      assert p.out == [digest] + others.out && p.out[1..] == others.out && marks[1..] == later;
      FirstDecoy(whole, |whole| - |tape|, |whole| - |t1| + 1, used, digest, p.queue.jobs[|q.jobs|]);
      DecoysDrawnCons(whole, marks, used, p.out, p.queue.jobs, |q.jobs|);
    }
  }

  lemma DecoyMarks(tape: Tape, marks: seq<nat>, used: set<nat>, digests: seq<PlannedDigest>, jobs: seq<DigestJob>,
                   at: nat)
    requires DecoysDrawnAt(tape, marks, used, digests, jobs, at)
    ensures |marks| == |digests| + 1
  {
  }

  lemma FirstDecoy(tape: Tape, from: nat, to: nat, used: set<nat>, digest: PlannedDigest, job: DigestJob)
    requires DrawnAt(tape, from, to, used, digest.digestId) && job.input == tape[to - 1].asFill
    ensures DecoyDrawnAt(tape, from, to, used, digest, job)
  {
  }

  /** One planned namespace whose first job has id `start`: real items first,
      in order, each with its own id and encoding; then, when decoys are enabled,
      as many as were drawn at the start of the namespace's span, each of them the
      512 bytes drawn in that span right after its id, which is the first unused
      one; ids all different. */
  ghost predicate NamespaceIsPlanned(span: Span, credentialId: U64, algorithm: DigestAlgorithm, decoys: bool,
                                     items: seq<IssuedItem>,
                                     digests: seq<PlannedDigest>, jobs: seq<DigestJob>, start: nat)
  {
    && start + |digests| <= |jobs|
    && |items| <= |digests|
    && |digests| - |items| == DecoysDrawn(span, decoys)
    && (if decoys then span.from < span.to <= |span.tape| else span.from == span.to)
    && (forall i :: 0 <= i < |digests| ==> IsPlannedAt(span, credentialId, algorithm, items, digests, jobs, start, i))
    && (DistinctIds(items) ==> DistinctDigestIds(digests))
    && (decoys ==> DecoysAsDrawn(span, items, digests, jobs, start))
  }

  /** The decoys take up the rest of the span after its first draw. */
  ghost predicate DecoysAsDrawn(span: Span, items: seq<IssuedItem>, digests: seq<PlannedDigest>, jobs: seq<DigestJob>,
                                start: nat)
    requires |items| <= |digests|
  {
    exists marks: seq<nat> ::
      && DecoysDrawnAt(span.tape, marks, DigestIdsOf(items), digests[|items|..], jobs, start + |items|)
      && marks[0] == span.from + 1 && marks[|marks| - 1] == span.to
  }

  lemma DecoysInMoreJobs(span: Span, items: seq<IssuedItem>, digests: seq<PlannedDigest>, jobs: seq<DigestJob>,
                         jobs': seq<DigestJob>, start: nat)
    requires |items| <= |digests| && DecoysAsDrawn(span, items, digests, jobs, start)
    requires |jobs| <= |jobs'| && jobs'[..|jobs|] == jobs
    ensures DecoysAsDrawn(span, items, digests, jobs', start)
  {
    hide DigestIdsOf, DecoyDrawnAt, PlannedIds;
    var decoys, at := digests[|items|..], start + |items|;
    var marks: seq<nat> :| && DecoysDrawnAt(span.tape, marks, DigestIdsOf(items), decoys, jobs, at)
                           && marks[0] == span.from + 1 && marks[|marks| - 1] == span.to;
    forall i | 0 <= i < |decoys|
      ensures DecoyDrawnAt(span.tape, marks[i], marks[i + 1], DigestIdsOf(items) + PlannedIds(decoys[..i]), decoys[i],
                           jobs'[at + i])
    {
      assert jobs'[..|jobs|][at + i] == jobs[at + i];
    }
    assert DecoysDrawnAt(span.tape, marks, DigestIdsOf(items), decoys, jobs', at);
  }

  /** The number of decoys: the draw a namespace's span starts with. */
  function DecoysDrawn(span: Span, decoys: bool): (n: nat)
    ensures n == 0 || 5 <= n <= 9
  {
    if decoys && 0 <= span.from < |span.tape| then span.tape[span.from].asDecoyCount else 0
  }

  predicate DistinctDigestIds(digests: seq<PlannedDigest>) {
    forall i, j :: 0 <= i < j < |digests| ==> digests[i].digestId != digests[j].digestId
  }

  /** A namespace's plan taken apart: what follows the count drawn, the real items
      and the decoys. */
  lemma NamespaceParts(credentialId: U64, items: seq<IssuedItem>, algorithm: DigestAlgorithm, decoys: bool, q: Queue,
                       tape: Tape)
    returns (t1: Tape, used: set<nat>, a: Planned<seq<PlannedDigest>>, b: Planned<seq<PlannedDigest>>)
    requires PlanNamespace(credentialId, items, algorithm, decoys, q, tape).Success?
    ensures (decoys ==> |tape| > 0) && t1 == if decoys then tape[1..] else tape
    ensures PlanItems(credentialId, items, 0, algorithm, q, t1) == Success(a)
    ensures PlanDecoys(credentialId, |b.out|, |items|, algorithm, used, a.queue, t1) == Success(b)
    ensures |b.out| == if decoys then tape[0].asDecoyCount else 0
    ensures |b.out| > 0 ==> used == DigestIdsOf(items)
    ensures PlanNamespace(credentialId, items, algorithm, decoys, q, tape).value
         == Planned(b.queue, a.out + b.out, b.tape)
  {
    hide ItemInput, PairedAt, PlanItems, PlanDecoys, DigestIdsOf, IsDecoy, DistinctDigestIds, Pushed, IsRestOf;
    var decoyCount := if decoys then tape[0].asDecoyCount else 0;
    t1 := if decoys then tape[1..] else tape;
    used := if decoyCount > 0 then DigestIdsOf(items) else {};
    TapeIsKept(credentialId, items, 0, algorithm, q, t1);
    a := PlanItems(credentialId, items, 0, algorithm, q, t1).value;
    b := PlanDecoys(credentialId, decoyCount, |items|, algorithm, used, a.queue, a.tape).value;
    DecoysArePushed(credentialId, decoyCount, |items|, algorithm, used, a.queue, a.tape);
  }

  lemma NamespaceSpan(tape: Tape, t1: Tape, end: Tape, whole: Tape, decoys: bool)
    requires IsRestOf(tape, whole) && IsRestOf(end, t1) && (decoys ==> |tape| > 0)
    requires t1 == (if decoys then tape[1..] else tape) && (!decoys ==> end == t1)
    ensures |end| <= |t1| <= |tape| <= |whole| && IsRestOf(end, whole)
    ensures var span := Span(whole, |whole| - |tape|, |whole| - |end|);
      && DecoysDrawn(span, decoys) == (if decoys then tape[0].asDecoyCount else 0)
      && (if decoys then span.from < span.to <= |span.tape| else span.from == span.to)
      && (decoys ==> Within(Span(t1, -1, |t1| - |end|), span))
  {
    if decoys {
      assert IsRestOf(t1, whole);
      SpanOfRest(end, t1, whole, |whole| - |tape|);
    }
  }

  lemma NamespacePlan(credentialId: U64, items: seq<IssuedItem>, algorithm: DigestAlgorithm, decoys: bool, q: Queue,
                      tape: Tape, whole: Tape)
    requires PlanNamespace(credentialId, items, algorithm, decoys, q, tape).Success?
    requires q.next == |q.jobs| && IsRestOf(tape, whole)
    ensures var p := PlanNamespace(credentialId, items, algorithm, decoys, q, tape).value;
      && p.queue.next == |p.queue.jobs| == |q.jobs| + |p.out|
      && p.queue.jobs[..|q.jobs|] == q.jobs
      && IsRestOf(p.tape, whole)
      && NamespaceIsPlanned(Span(whole, |whole| - |tape|, |whole| - |p.tape|), credentialId, algorithm, decoys,
                            items, p.out, p.queue.jobs, |q.jobs|)
  {
    hide *;
    var t1, used, a, b := NamespaceParts(credentialId, items, algorithm, decoys, q, tape);
    ItemsArePushed(credentialId, items, 0, algorithm, q, t1);
    DecoysArePushed(credentialId, |b.out|, |items|, algorithm, used, a.queue, t1);
    PushedMeans(credentialId, algorithm, 0, q, a.queue, a.out);
    PushedMeans(credentialId, algorithm, |items|, a.queue, b.queue, b.out);
    NamespaceSpan(tape, t1, b.tape, whole, decoys);
    var span := Span(whole, |whole| - |tape|, |whole| - |b.tape|);
    if decoys {
      DecoysStay(Span(t1, -1, |t1| - |b.tape|), span, b.out, b.queue.jobs, |a.queue.jobs|);
    }
    var marks := DecoysAreDrawn(credentialId, |b.out|, |items|, algorithm, used, a.queue, t1, whole);
    DecoyMarks(whole, marks, used, b.out, b.queue.jobs, |a.queue.jobs|);
    PartsAreNamespace(span, credentialId, algorithm, decoys, items, used, q, a.queue, b.queue, a.out, b.out, marks);
  }

  lemma PushedMeans(credentialId: U64, algorithm: DigestAlgorithm, firstOrdinal: nat, q: Queue, q': Queue,
                    out: seq<PlannedDigest>)
    requires Pushed(credentialId, algorithm, firstOrdinal, q, q', out)
    ensures |q'.jobs| == |q.jobs| + |out| && q'.next == q.next + |out| && q'.jobs[..|q.jobs|] == q.jobs
  {
  }

  lemma PartsAreNamespace(span: Span, credentialId: U64, algorithm: DigestAlgorithm, decoys: bool,
                          items: seq<IssuedItem>, used: set<nat>, q: Queue, qa: Queue, qb: Queue,
                          a: seq<PlannedDigest>, b: seq<PlannedDigest>, marks: seq<nat>)
    requires q.next == |q.jobs| && |a| == |items| && |b| == DecoysDrawn(span, decoys)
    requires decoys ==>
               && DecoysDrawnAt(span.tape, marks, DigestIdsOf(items), b, qb.jobs, |q.jobs| + |items|)
               && marks[0] == span.from + 1 && marks[|marks| - 1] == span.to
    requires if decoys then span.from < span.to <= |span.tape| else span.from == span.to
    requires Pushed(credentialId, algorithm, 0, q, qa, a)
    requires Pushed(credentialId, algorithm, |items|, qa, qb, b)
    requires forall i :: 0 <= i < |items| ==>
               a[i].digestId == items[i].item.digestId && qa.jobs[|q.jobs| + i].input == ItemInput(items[i])
    requires forall k :: |qa.jobs| <= k < |qb.jobs| ==> IsDecoy(span, b[k - |qa.jobs|].digestId, qb.jobs[k].input)
    requires |b| > 0 ==> used == DigestIdsOf(items)
    requires forall i :: 0 <= i < |b| ==> b[i].digestId !in used
    requires DistinctDigestIds(b)
    ensures NamespaceIsPlanned(span, credentialId, algorithm, decoys, items, a + b, qb.jobs, |q.jobs|)
    ensures qb.jobs[..|q.jobs|] == q.jobs
  {
    hide ItemInput, PairedAt, DigestIdsOf, IsDecoy, IsPlannedAt, DistinctIds, DistinctDigestIds, DecoyDrawnAt,
         PlannedIds;
    assert (a + b)[|items|..] == b;
    if DistinctIds(items) {
      IdsDistinct(items, a, b, used);
    }
    assert qb.jobs[..|q.jobs|] == qa.jobs[..|q.jobs|];
    forall i | 0 <= i < |a| + |b|
      ensures IsPlannedAt(span, credentialId, algorithm, items, a + b, qb.jobs, |q.jobs|, i)
    {
      PartsJoin(span, credentialId, algorithm, items, q, qa, qb, a, b, i);
    }
  }

  /** Digest `i` of a namespace sits at its place: with its job, and as a real
      item or a decoy. */
  ghost predicate IsPlannedAt(span: Span, credentialId: U64, algorithm: DigestAlgorithm, items: seq<IssuedItem>,
                              digests: seq<PlannedDigest>, jobs: seq<DigestJob>, start: nat, i: nat)
    requires i < |digests| && start + i < |jobs|
  {
    && PairedAt(credentialId, algorithm, i, start + i, digests[i], jobs[start + i])
    && if i < |items|
       then digests[i].digestId == items[i].item.digestId && jobs[start + i].input == ItemInput(items[i])
       else IsDecoy(span, digests[i].digestId, jobs[start + i].input)
  }

  lemma PartsJoin(span: Span, credentialId: U64, algorithm: DigestAlgorithm, items: seq<IssuedItem>, q: Queue,
                  qa: Queue, qb: Queue,
                  a: seq<PlannedDigest>, b: seq<PlannedDigest>, i: nat)
    requires q.next == |q.jobs| && |a| == |items| && i < |a| + |b|
    requires Pushed(credentialId, algorithm, 0, q, qa, a)
    requires Pushed(credentialId, algorithm, |items|, qa, qb, b)
    requires i < |a| ==> a[i].digestId == items[i].item.digestId && qa.jobs[|q.jobs| + i].input == ItemInput(items[i])
    requires |a| <= i ==> IsDecoy(span, b[i - |a|].digestId, qb.jobs[|q.jobs| + i].input)
    ensures IsPlannedAt(span, credentialId, algorithm, items, a + b, qb.jobs, |q.jobs|, i)
  {
    hide ItemInput, PairedAt, IsDecoy;
    var k := |q.jobs| + i;
    if i < |a| {
      assert qb.jobs[..|qa.jobs|][k] == qa.jobs[k];
      assert PairedAt(credentialId, algorithm, i, k, a[i], qa.jobs[k]);
    } else {
      assert PairedAt(credentialId, algorithm, i, k, b[k - |qa.jobs|], qb.jobs[k]);
    }
  }

  lemma IdsDistinct(items: seq<IssuedItem>, real_: seq<PlannedDigest>, decoys: seq<PlannedDigest>, used: set<nat>)
    requires DistinctIds(items) && |real_| == |items|
    requires forall i :: 0 <= i < |items| ==> real_[i].digestId == items[i].item.digestId
    requires |decoys| > 0 ==> used == DigestIdsOf(items)
    requires forall i :: 0 <= i < |decoys| ==> decoys[i].digestId !in used
    requires DistinctDigestIds(decoys)
    ensures DistinctDigestIds(real_ + decoys)
  {
    var out := real_ + decoys;
    forall i, j | 0 <= i < j < |out|
      ensures out[i].digestId != out[j].digestId
    {
      if i < |items| <= j {
        assert items[i].item.digestId in DigestIdsOf(items);
        assert decoys[j - |items|].digestId !in used;
      } else if |items| <= i {
        assert decoys[i - |items|].digestId != decoys[j - |items|].digestId;
      } else {
        assert items[i].item.digestId != items[j].item.digestId;
      }
    }
  }

  /** All namespaces of a plan, from the one whose first job id is `start` on.
      Their spans lie end to end between the marks. */
  ghost predicate NamespacesArePlanned(tape: Tape, marks: seq<nat>, credentialId: U64, algorithm: DigestAlgorithm,
                                       decoys: bool,
                                       namespaces: seq<IssuerNamespace>,
                                       planned: seq<PlannedNamespace>, jobs: seq<DigestJob>, start: nat)
    decreases |namespaces|
  {
    if |namespaces| == 0 then |planned| == 0 && start == |jobs| && |marks| == 1
    else
      && |planned| > 0 && |marks| > 1
      && planned[0].name == namespaces[0].name
      && NamespaceIsPlanned(Span(tape, marks[0], marks[1]), credentialId, algorithm, decoys, namespaces[0].items,
                            planned[0].digests, jobs, start)
      && NamespacesArePlanned(tape, marks[1..], credentialId, algorithm, decoys, namespaces[1..], planned[1..], jobs,
                              start + |planned[0].digests|)
  }

  lemma {:induction false} NamespacesPlan(credentialId: U64, namespaces: seq<IssuerNamespace>,
                                          algorithm: DigestAlgorithm, decoys: bool, q: Queue, tape: Tape, whole: Tape)
    returns (marks: seq<nat>)
    requires PlanNamespaces(credentialId, namespaces, algorithm, decoys, q, tape).Success?
    requires q.next == |q.jobs| && IsRestOf(tape, whole)
    ensures var p := PlanNamespaces(credentialId, namespaces, algorithm, decoys, q, tape).value;
      && p.queue.next == |p.queue.jobs|
      && |q.jobs| <= |p.queue.jobs| && p.queue.jobs[..|q.jobs|] == q.jobs
      && IsRestOf(p.tape, whole)
      && |marks| > 0 && marks[0] == |whole| - |tape| && marks[|marks| - 1] == |whole| - |p.tape|
      && NamespacesArePlanned(whole, marks, credentialId, algorithm, decoys, namespaces, p.out, p.queue.jobs, |q.jobs|)
  {
    hide PlanNamespace, NamespaceIsPlanned;
    if |namespaces| == 0 {
      marks := [|whole| - |tape|];
    } else {
      NamespacePlan(credentialId, namespaces[0].items, algorithm, decoys, q, tape, whole);
      var first := PlanNamespace(credentialId, namespaces[0].items, algorithm, decoys, q, tape).value;
      var laterMarks := NamespacesPlan(credentialId, namespaces[1..], algorithm, decoys, first.queue, first.tape,
                                       whole);
      var others := PlanNamespaces(credentialId, namespaces[1..], algorithm, decoys, first.queue, first.tape).value;
      var p := PlanNamespaces(credentialId, namespaces, algorithm, decoys, q, tape).value;
      assert p.out == [PlannedNamespace(namespaces[0].name, first.out)] + others.out && p.queue == others.queue;
      assert p.out[1..] == others.out;
      assert others.queue.jobs[..|q.jobs|] == first.queue.jobs[..|q.jobs|];
      marks := [|whole| - |tape|] + laterMarks;
      assert marks[1..] == laterMarks;
      MoreJobs(Span(whole, marks[0], marks[1]), credentialId, algorithm, decoys, namespaces[0].items, first.out,
               first.queue.jobs,
               others.queue.jobs, |q.jobs|);
    }
  }

  lemma MoreJobs(span: Span, credentialId: U64, algorithm: DigestAlgorithm, decoys: bool, items: seq<IssuedItem>,
                 digests: seq<PlannedDigest>, jobs: seq<DigestJob>, jobs': seq<DigestJob>, start: nat)
    requires NamespaceIsPlanned(span, credentialId, algorithm, decoys, items, digests, jobs, start)
    requires |jobs| <= |jobs'| && jobs'[..|jobs|] == jobs
    ensures NamespaceIsPlanned(span, credentialId, algorithm, decoys, items, digests, jobs', start)
  {
    hide ItemInput, PairedAt, DistinctIds, DistinctDigestIds, IsDecoy, DecoysAsDrawn;
    if decoys {
      DecoysInMoreJobs(span, items, digests, jobs, jobs', start);
    }
    forall i | 0 <= i < |digests|
      ensures IsPlannedAt(span, credentialId, algorithm, items, digests, jobs', start, i)
    {
      assert IsPlannedAt(span, credentialId, algorithm, items, digests, jobs, start, i);
      assert jobs'[..|jobs|][start + i] == jobs[start + i];
    }
  }

  /** Every plan the planner produces: job ids are 0, 1, 2, ... in bijection with
      the planned digests, and each namespace is as `NamespaceIsPlanned` says,
      with the tape consumed end to end. */
  lemma {:induction false} PlanIsWellFormed(credentialId: U64, namespaces: seq<IssuerNamespace>,
                                            algorithm: DigestAlgorithm, decoys: bool, tape: Tape, whole: Tape)
    returns (marks: seq<nat>)
    requires PlanOf(credentialId, namespaces, algorithm, decoys, tape).Success? && IsRestOf(tape, whole)
    ensures var (plan, rest) := PlanOf(credentialId, namespaces, algorithm, decoys, tape).value;
      && plan.credentialId == credentialId
      && |plan.jobs| < TWO_64
      && IsRestOf(rest, whole)
      && |marks| > 0 && marks[0] == |whole| - |tape| && marks[|marks| - 1] == |whole| - |rest|
      && NamespacesArePlanned(whole, marks, credentialId, algorithm, decoys, namespaces, plan.namespaces, plan.jobs, 0)
  {
    hide PlanNamespaces, NamespacesArePlanned, IsRestOf;
    marks := NamespacesPlan(credentialId, namespaces, algorithm, decoys, EMPTY_QUEUE, tape, whole);
  }

  // ---------- When planning fails ----------

  lemma {:induction false} ItemsPlanExactly(credentialId: U64, items: seq<IssuedItem>, ordinal: nat,
                                            algorithm: DigestAlgorithm, q: Queue, tape: Tape)
    ensures var r := PlanItems(credentialId, items, ordinal, algorithm, q, tape);
      && (r.Success? <==> q.next + |items| < TWO_64)
      && (r.Failure? ==> r.error == TooManyJobs)
      && (r.Success? ==> r.value.queue.next == q.next + |items| && r.value.tape == tape)
  {
    hide ItemInput;
    if |items| > 0 {
      var push := Push(credentialId, items[0].item.digestId, ordinal, algorithm, ItemInput(items[0]), q);
      if push.Success? {
        ItemsPlanExactly(credentialId, items[1..], ordinal + 1, algorithm, push.value.0, tape);
      }
    }
  }

  /** The tape holds `count` ids that are unused and different, each with a draw
      after it. */
  ghost predicate CanDraw(used: set<nat>, count: nat, tape: Tape)
    decreases count
  {
    if count == 0 then true
    else
      match DrawDigestId(used, tape)
      case None => false
      case Some((id, rest)) => |rest| > 0 && CanDraw(used + {id}, count - 1, rest[1..])
  }

  lemma {:induction false} DecoysPlanExactly(credentialId: U64, count: nat, ordinal: nat, algorithm: DigestAlgorithm,
                                             used: set<nat>, q: Queue, tape: Tape)
    ensures var r := PlanDecoys(credentialId, count, ordinal, algorithm, used, q, tape);
      && (r.Success? <==> q.next + count < TWO_64 && CanDraw(used, count, tape))
      && (r == Failure(TooManyJobs) ==> q.next + count >= TWO_64)
      && (r == Failure(TapeExhausted) ==> !CanDraw(used, count, tape))
      && (r.Failure? ==> r.error == TooManyJobs || r.error == TapeExhausted)
  {
    hide DrawDigestId;
    if count > 0 {
      var draw := DrawDigestId(used, tape);
      if draw.Some? && |draw.value.1| > 0 {
        var (id, t1) := draw.value;
        var push := Push(credentialId, id, ordinal, algorithm, t1[0].asFill, q);
        if push.Success? {
          DecoysPlanExactly(credentialId, count - 1, ordinal + 1, algorithm, used + {id}, push.value.0, t1[1..]);
        }
      }
    }
  }

  /** A namespace's planning fails only for want of job ids or of draws, and with
      the error that says which. */
  lemma {:induction false} NamespacePlansExactly(credentialId: U64, items: seq<IssuedItem>, algorithm: DigestAlgorithm,
                                                 decoys: bool, q: Queue, tape: Tape)
    ensures var r := PlanNamespace(credentialId, items, algorithm, decoys, q, tape);
      var count := if decoys && |tape| > 0 then tape[0].asDecoyCount else 0;
      var enoughDraws := decoys ==> |tape| > 0 && CanDraw(DigestIdsOf(items), count, tape[1..]);
      && (r.Success? <==> q.next + |items| + count < TWO_64 && enoughDraws)
      && (r == Failure(TooManyJobs) ==> q.next + |items| + count >= TWO_64)
      && (r == Failure(TapeExhausted) ==> !enoughDraws)
      && (r.Failure? ==> r.error == TooManyJobs || r.error == TapeExhausted)
  {
    hide PlanItems, PlanDecoys, DigestIdsOf, CanDraw;
    if !decoys || |tape| > 0 {
      var count := if decoys then tape[0].asDecoyCount else 0;
      var t1 := if decoys then tape[1..] else tape;
      var used := if count > 0 then DigestIdsOf(items) else {};
      ItemsPlanExactly(credentialId, items, 0, algorithm, q, t1);
      NothingToDraw(used, t1);
      var planned := PlanItems(credentialId, items, 0, algorithm, q, t1);
      if planned.Success? {
        DecoysPlanExactly(credentialId, count, |items|, algorithm, used, planned.value.queue, t1);
      }
    }
  }

  lemma {:induction false} NothingToDraw(used: set<nat>, tape: Tape)
    ensures CanDraw(used, 0, tape)
  {
  }

  // ---------- Plans differ only in the credential id ----------

  function RelabelJob(c: U64, job: DigestJob): DigestJob {
    job.(credentialId := c)
  }

  function RelabelJobs(c: U64, jobs: seq<DigestJob>): (r: seq<DigestJob>)
    ensures |r| == |jobs|
    ensures forall i :: 0 <= i < |jobs| ==> r[i] == RelabelJob(c, jobs[i])
  {
    seq(|jobs|, i requires 0 <= i < |jobs| => RelabelJob(c, jobs[i]))
  }

  function RelabelQueue(c: U64, q: Queue): Queue {
    Queue(q.next, RelabelJobs(c, q.jobs))
  }

  function RelabelDigests(c: U64, digests: seq<PlannedDigest>): (r: seq<PlannedDigest>)
    ensures |r| == |digests|
    ensures forall i :: 0 <= i < |digests| ==> r[i] == digests[i].(credentialId := c)
  {
    seq(|digests|, i requires 0 <= i < |digests| => digests[i].(credentialId := c))
  }

  function RelabelNamespaces(c: U64, planned: seq<PlannedNamespace>): (r: seq<PlannedNamespace>)
    ensures |r| == |planned|
    ensures forall k :: 0 <= k < |planned| ==>
              r[k] == PlannedNamespace(planned[k].name, RelabelDigests(c, planned[k].digests))
  {
    seq(|planned|, k requires 0 <= k < |planned| => PlannedNamespace(planned[k].name,
        RelabelDigests(c, planned[k].digests)))
  }

  function Relabel(c: U64, plan: DigestPlan): DigestPlan {
    DigestPlan(c, RelabelNamespaces(c, plan.namespaces), RelabelJobs(c, plan.jobs))
  }

  function RelabelDigestPlanning(c: U64, r: Planning<seq<PlannedDigest>>): Planning<seq<PlannedDigest>> {
    match r
    case Failure(error) => Failure(error)
    case Success(p) => Success(Planned(RelabelQueue(c, p.queue), RelabelDigests(c, p.out), p.tape))
  }

  function RelabelNamespacePlanning(c: U64, r: Planning<seq<PlannedNamespace>>): Planning<seq<PlannedNamespace>> {
    match r
    case Failure(error) => Failure(error)
    case Success(p) => Success(Planned(RelabelQueue(c, p.queue), RelabelNamespaces(c, p.out), p.tape))
  }

  lemma PushRelabels(c: U64, d: U64, digestId: nat, ordinal: nat, algorithm: DigestAlgorithm, input: seq<Byte>,
                     q: Queue)
    ensures Push(c, digestId, ordinal, algorithm, input, RelabelQueue(c, q))
         == match Push(d, digestId, ordinal, algorithm, input, q)
            case Failure(error) => Failure(error)
            case Success((q1, digest)) => Success((RelabelQueue(c, q1), digest.(credentialId := c)))
  {
    assert RelabelJobs(c, q.jobs + [DigestJob(d, q.next, ordinal, algorithm, input)])
        == RelabelJobs(c, q.jobs) + [DigestJob(c, q.next, ordinal, algorithm, input)];
  }

  lemma AddFirstRelabels(c: U64, first: seq<PlannedDigest>, others: Planning<seq<PlannedDigest>>)
    ensures RelabelDigestPlanning(c, AddFirst(first, others))
        == AddFirst(RelabelDigests(c, first), RelabelDigestPlanning(c, others))
  {
    if others.Success? {
      assert RelabelDigests(c, first + others.value.out)
          == RelabelDigests(c, first) + RelabelDigests(c, others.value.out);
    }
  }

  lemma {:induction false} ItemsRelabel(c: U64, d: U64, items: seq<IssuedItem>, ordinal: nat,
                                        algorithm: DigestAlgorithm, q: Queue, tape: Tape)
    ensures PlanItems(c, items, ordinal, algorithm, RelabelQueue(c, q), tape)
         == RelabelDigestPlanning(c, PlanItems(d, items, ordinal, algorithm, q, tape))
  {
    hide ItemInput, RelabelQueue, Push;
    if |items| == 0 {
      assert RelabelDigests(c, []) == [];
    } else {
      var push := Push(d, items[0].item.digestId, ordinal, algorithm, ItemInput(items[0]), q);
      PushRelabels(c, d, items[0].item.digestId, ordinal, algorithm, ItemInput(items[0]), q);
      if push.Success? {
        var (q1, digest) := push.value;
        ItemsRelabel(c, d, items[1..], ordinal + 1, algorithm, q1, tape);
        AddFirstRelabels(c, [digest], PlanItems(d, items[1..], ordinal + 1, algorithm, q1, tape));
        assert RelabelDigests(c, [digest]) == [digest.(credentialId := c)];
      }
    }
  }

  lemma {:induction false} DecoysRelabel(c: U64, d: U64, count: nat, ordinal: nat, algorithm: DigestAlgorithm,
                                         used: set<nat>, q: Queue, tape: Tape)
    ensures PlanDecoys(c, count, ordinal, algorithm, used, RelabelQueue(c, q), tape)
         == RelabelDigestPlanning(c, PlanDecoys(d, count, ordinal, algorithm, used, q, tape))
  {
    hide RelabelQueue, Push;
    if count == 0 {
      assert RelabelDigests(c, []) == [];
    } else {
      var draw := DrawDigestId(used, tape);
      if draw.Some? && |draw.value.1| > 0 {
        var (id, t1) := draw.value;
        var push := Push(d, id, ordinal, algorithm, t1[0].asFill, q);
        PushRelabels(c, d, id, ordinal, algorithm, t1[0].asFill, q);
        if push.Success? {
          var (q1, digest) := push.value;
          DecoysRelabel(c, d, count - 1, ordinal + 1, algorithm, used + {id}, q1, t1[1..]);
          AddFirstRelabels(c, [digest], PlanDecoys(d, count - 1, ordinal + 1, algorithm, used + {id}, q1, t1[1..]));
          assert RelabelDigests(c, [digest]) == [digest.(credentialId := c)];
        }
      }
    }
  }

  lemma NamespaceRelabels(c: U64, d: U64, items: seq<IssuedItem>, algorithm: DigestAlgorithm, decoys: bool, q: Queue,
                          tape: Tape)
    ensures PlanNamespace(c, items, algorithm, decoys, RelabelQueue(c, q), tape)
         == RelabelDigestPlanning(c, PlanNamespace(d, items, algorithm, decoys, q, tape))
  {
    hide PlanItems, PlanDecoys, RelabelQueue, DigestIdsOf;
    if !(decoys && |tape| == 0) {
      var decoyCount := if decoys then tape[0].asDecoyCount else 0;
      var t1 := if decoys then tape[1..] else tape;
      var used := if decoyCount > 0 then DigestIdsOf(items) else {};
      ItemsRelabel(c, d, items, 0, algorithm, q, t1);
      var a := PlanItems(d, items, 0, algorithm, q, t1);
      if a.Success? {
        DecoysRelabel(c, d, decoyCount, |items|, algorithm, used, a.value.queue, a.value.tape);
        AddFirstRelabels(c, a.value.out,
                         PlanDecoys(d, decoyCount, |items|, algorithm, used, a.value.queue, a.value.tape));
      }
    }
  }

  lemma {:induction false} NamespacesRelabel(c: U64, d: U64, namespaces: seq<IssuerNamespace>,
                                             algorithm: DigestAlgorithm, decoys: bool, q: Queue, tape: Tape)
    ensures PlanNamespaces(c, namespaces, algorithm, decoys, RelabelQueue(c, q), tape)
         == RelabelNamespacePlanning(c, PlanNamespaces(d, namespaces, algorithm, decoys, q, tape))
  {
    hide PlanNamespace, RelabelQueue, RelabelDigests;
    if |namespaces| == 0 {
      assert RelabelNamespaces(c, []) == [];
    } else {
      NamespaceRelabels(c, d, namespaces[0].items, algorithm, decoys, q, tape);
      var first := PlanNamespace(d, namespaces[0].items, algorithm, decoys, q, tape);
      if first.Success? {
        NamespacesRelabel(c, d, namespaces[1..], algorithm, decoys, first.value.queue, first.value.tape);
        var others := PlanNamespaces(d, namespaces[1..], algorithm, decoys, first.value.queue, first.value.tape);
        if others.Success? {
          assert RelabelNamespaces(c, [PlannedNamespace(namespaces[0].name, first.value.out)] + others.value.out)
              == [PlannedNamespace(namespaces[0].name, RelabelDigests(c, first.value.out))] + RelabelNamespaces(c,
                  others.value.out);
        }
      }
    }
  }

  /** The credential id is routing data only: planning under another id consumes
      the same tape and gives the same plan relabelled, or the same error. */
  lemma PlanRelabels(c: U64, d: U64, namespaces: seq<IssuerNamespace>, algorithm: DigestAlgorithm, decoys: bool,
                     tape: Tape)
    ensures PlanOf(c, namespaces, algorithm, decoys, tape)
         == match PlanOf(d, namespaces, algorithm, decoys, tape)
            case Failure(error) => Failure(error)
            case Success((plan, rest)) => Success((Relabel(c, plan), rest))
  {
    hide PlanNamespaces;
    NamespacesRelabel(c, d, namespaces, algorithm, decoys, EMPTY_QUEUE, tape);
    assert RelabelQueue(c, EMPTY_QUEUE) == EMPTY_QUEUE;
  }
}
