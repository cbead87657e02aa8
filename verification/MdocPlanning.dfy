/** Planning an mdoc's digest jobs from one random tape (src/issuance/mdoc.rs). */
module MdocPlanning {
  import opened Fips180
  import opened DigestTypes

  // ---------- Randomness ----------

  /** Drawn digest ids: 32-bit, without the one value whose negation overflows. */
  type I32 = i: int | -0x7fff_ffff <= i <= 0x7fff_ffff
  type Salt = s: seq<Byte> | |s| == 16 witness Zeros(16)
  type DecoyCount = n: nat | 5 <= n < 10 witness 5
  type Decoy = s: seq<Byte> | |s| == 512 witness Zeros(512)

  /** One position of the tape: the value each kind of draw would yield there. */
  datatype Draw = Draw(asI32: I32, asSalt: Salt, asDecoyCount: DecoyCount, asFill: Decoy)

  type Tape = seq<Draw>

  class Rng {
    var tape: Tape

    constructor (tape: Tape)
      ensures this.tape == tape
    {
      this.tape := tape;
    }

    method Next() returns (draw: Option<Draw>)
      modifies this
      ensures old(|tape|) == 0 ==> draw == None && tape == old(tape)
      ensures old(|tape|) > 0 ==> draw == Some(old(tape[0])) && tape == old(tape[1..])
    {
      if |tape| == 0 {
        draw := None;
      } else {
        draw := Some(tape[0]);
        tape := tape[1..];
      }
    }
  }

  function DigestIdNew(i: I32): (id: nat)
    ensures id == i || id == -i
  {
    if i < 0 then -i else i
  }

  /** The first unused digest id on the tape, and what is left of the tape. */
  function DrawDigestId(used: set<nat>, tape: Tape): Option<(nat, Tape)> {
    if |tape| == 0 then None
    else
      var id := DigestIdNew(tape[0].asI32);
      if id in used then DrawDigestId(used, tape[1..]) else Some((id, tape[1..]))
  }

  method GenerateDigestId(usedIds: set<nat>, rng: Rng) returns (digestId: Option<nat>, newUsedIds: set<nat>)
    modifies rng
    ensures match DrawDigestId(usedIds, old(rng.tape))
      case None => digestId == None && rng.tape == []
      case Some((id, rest)) => digestId == Some(id) && rng.tape == rest && newUsedIds == usedIds + {id}
  {
    newUsedIds := usedIds;
    while true
      invariant DrawDigestId(usedIds, rng.tape) == DrawDigestId(usedIds, old(rng.tape))
      decreases |rng.tape|
    {
      var draw := rng.Next();
      if draw.None? {
        return None, newUsedIds;
      }
      var id := DigestIdNew(draw.value.asI32);
      if id !in usedIds {
        newUsedIds := usedIds + {id};
        return Some(id), newUsedIds;
      }
    }
  }

  // ---------- Issuer namespaces ----------

  datatype PlanError = TapeExhausted | EncodingFailed | NamespaceRequired | ElementRequired | TooManyJobs

  /** A `BTreeMap` of elements or namespaces is its entries in key order. */
  datatype Element = Element(key: string, value: seq<Byte>)
  datatype Namespace = Namespace(name: string, elements: seq<Element>)

  predicate DistinctNames(namespaces: seq<Namespace>) {
    forall i, j :: 0 <= i < j < |namespaces| ==> namespaces[i].name != namespaces[j].name
  }

  datatype IssuerSignedItem = IssuerSignedItem(
    digestId: nat, random: Salt, elementIdentifier: string, elementValue: seq<Byte>)

  type Bytes64 = s: seq<Byte> | |s| < TWO_64 witness []

  /** CBOR encoding of an item; it may fail. */
  type Encoder = IssuerSignedItem -> Option<Bytes64>

  /** A tag-24 item: the value and its encoded bytes. */
  datatype IssuedItem = IssuedItem(item: IssuerSignedItem, innerBytes: Bytes64)

  datatype IssuerNamespace = IssuerNamespace(name: string, items: seq<IssuedItem>)

  type Issued<T> = Result<(T, Tape), PlanError>

  function IssueItems(encode: Encoder, elements: seq<Element>, used: set<nat>, tape: Tape): Issued<seq<IssuedItem>> {
    if |elements| == 0 then Success(([], tape))
    else
      match DrawDigestId(used, tape)
      case None => Failure(TapeExhausted)
      case Some((id, t1)) =>
        if |t1| == 0 then Failure(TapeExhausted)
        else
          var item := IssuerSignedItem(id, t1[0].asSalt, elements[0].key, elements[0].value);
          match encode(item)
          case None => Failure(EncodingFailed)
          case Some(bytes) => Prepend([IssuedItem(item, bytes)],
                                      IssueItems(encode, elements[1..], used + {id}, t1[1..]))
  }

  function Prepend<T>(first: seq<T>, others: Issued<seq<T>>): Issued<seq<T>> {
    if others.Failure? then others else Success((first + others.value.0, others.value.1))
  }

  lemma PrependNothing<T>(others: Issued<seq<T>>)
    ensures Prepend([], others) == others
  {
    assert others.Success? ==> [] + others.value.0 == others.value.0;
  }

  lemma PrependTwice<T>(a: seq<T>, b: seq<T>, others: Issued<seq<T>>)
    ensures Prepend(a, Prepend(b, others)) == Prepend(a + b, others)
  {
    assert others.Success? ==> (a + (b + others.value.0) == (a + b) + others.value.0);
  }

  function IssueNamespaces(encode: Encoder, namespaces: seq<Namespace>, tape: Tape): Issued<seq<IssuerNamespace>> {
    if |namespaces| == 0 then Success(([], tape))
    else
      match IssueItems(encode, namespaces[0].elements, {}, tape)
      case Failure(error) => Failure(error)
      case Success((items, rest)) =>
        if |items| == 0 then Failure(ElementRequired)
        else Prepend([IssuerNamespace(namespaces[0].name, items)], IssueNamespaces(encode, namespaces[1..], rest))
  }

  function IssuerNamespacesOf(encode: Encoder, namespaces: seq<Namespace>, tape: Tape): Issued<seq<IssuerNamespace>> {
    if |namespaces| == 0 then Failure(NamespaceRequired) else IssueNamespaces(encode, namespaces, tape)
  }

  method IssueNamespaceItems(encode: Encoder, elements: seq<Element>, rng: Rng)
    returns (r: Result<seq<IssuedItem>, PlanError>)
    modifies rng
    ensures match IssueItems(encode, elements, {}, old(rng.tape))
      case Failure(error) => r == Failure(error)
      case Success((items, rest)) => r == Success(items) && rng.tape == rest
  {
    var items: seq<IssuedItem> := [];
    var usedIds: set<nat> := {};
    PrependNothing(IssueItems(encode, elements, {}, rng.tape));
    assert elements[0..] == elements;
    for n := 0 to |elements|
      invariant IssueItems(encode, elements, {}, old(rng.tape))
             == Prepend(items, IssueItems(encode, elements[n..], usedIds, rng.tape))
    {
      assert elements[n..][1..] == elements[n + 1..];
      var digestId;
      digestId, usedIds := GenerateDigestId(usedIds, rng);
      if digestId.None? {
        return Failure(TapeExhausted);
      }
      var random := rng.Next();
      if random.None? {
        return Failure(TapeExhausted);
      }
      var item := IssuerSignedItem(digestId.value, random.value.asSalt, elements[n].key, elements[n].value);
      var bytes := encode(item);
      if bytes.None? {
        return Failure(EncodingFailed);
      }
      PrependTwice(items, [IssuedItem(item, bytes.value)], IssueItems(encode, elements[n + 1..], usedIds, rng.tape));
      items := items + [IssuedItem(item, bytes.value)];
    }
    assert elements[|elements|..] == [] && items + [] == items;
    r := Success(items);
  }

  method ToIssuerNamespaces(encode: Encoder, namespaces: seq<Namespace>, rng: Rng)
    returns (r: Result<seq<IssuerNamespace>, PlanError>)
    modifies rng
    ensures match IssuerNamespacesOf(encode, namespaces, old(rng.tape))
      case Failure(error) => r == Failure(error)
      case Success((issued, rest)) => r == Success(issued) && rng.tape == rest
  {
    hide IssueItems;
    var issued: seq<IssuerNamespace> := [];
    PrependNothing(IssueNamespaces(encode, namespaces, rng.tape));
    assert namespaces[0..] == namespaces;
    for n := 0 to |namespaces|
      invariant IssueNamespaces(encode, namespaces, old(rng.tape))
             == Prepend(issued, IssueNamespaces(encode, namespaces[n..], rng.tape))
    {
      assert namespaces[n..][1..] == namespaces[n + 1..];
      var items := IssueNamespaceItems(encode, namespaces[n].elements, rng);
      if items.Failure? {
        return Failure(items.error);
      }
      if |items.value| == 0 {
        return Failure(ElementRequired);
      }
      var next := IssuerNamespace(namespaces[n].name, items.value);
      PrependTwice(issued, [next], IssueNamespaces(encode, namespaces[n + 1..], rng.tape));
      issued := issued + [next];
    }
    assert namespaces[|namespaces|..] == [] && issued + [] == issued;
    if |namespaces| == 0 {
      return Failure(NamespaceRequired);
    }
    r := Success(issued);
  }

  // ---------- What issuing guarantees ----------

  /** What is left of a tape after some draws. */
  ghost predicate IsRestOf(rest: Tape, tape: Tape) {
    |rest| <= |tape| && rest == tape[|tape| - |rest|..]
  }

  lemma RestOfRest(a: Tape, b: Tape, c: Tape)
    requires IsRestOf(a, b) && IsRestOf(b, c)
    ensures IsRestOf(a, c)
  {
  }

  /** The draws of a tape strictly after position `from` and before `to`. */
  datatype Span = Span(tape: Tape, from: int, to: nat)

  /** A decoy as drawn within a span: its id at some position, its bytes right
      after it. */
  ghost predicate IsDecoy(span: Span, digestId: nat, input: seq<Byte>) {
    exists n: nat :: span.from < n && n + 1 < span.to <= |span.tape| && DecoyAt(span.tape, n, digestId, input)
  }

  predicate DecoyAt(tape: Tape, n: nat, digestId: nat, input: seq<Byte>)
    requires n + 1 < |tape|
  {
    DigestIdNew(tape[n].asI32) == digestId && input == tape[n + 1].asFill
  }

  /** The draws of `inner` are among those of `outer`, whose tape goes back further. */
  ghost predicate Within(inner: Span, outer: Span) {
    && IsRestOf(inner.tape, outer.tape)
    && outer.from <= inner.from + |outer.tape| - |inner.tape|
    && inner.to + |outer.tape| - |inner.tape| <= outer.to <= |outer.tape|
  }

  /** What was drawn down to `end` from the tape `inner` was drawn down to `end`
      from any longer tape. */
  lemma SpanOfRest(end: Tape, inner: Tape, outer: Tape, from: int)
    requires IsRestOf(end, inner) && IsRestOf(inner, outer) && from < |outer| - |inner|
    ensures |end| <= |inner| <= |outer| && IsRestOf(end, outer)
    ensures Within(Span(inner, -1, |inner| - |end|), Span(outer, from, |outer| - |end|))
  {
  }

  lemma DecoyWithin(inner: Span, outer: Span, digestId: nat, input: seq<Byte>)
    requires Within(inner, outer) && IsDecoy(inner, digestId, input)
    ensures IsDecoy(outer, digestId, input)
  {
    var n: nat :| inner.from < n && n + 1 < inner.to <= |inner.tape| && DecoyAt(inner.tape, n, digestId, input);
    assert DecoyAt(outer.tape, |outer.tape| - |inner.tape| + n, digestId, input);
  }

  /** The id drawn stands on the tape right before what is left. */
  lemma {:induction false} DrawnIdIsOnTape(used: set<nat>, tape: Tape)
    requires DrawDigestId(used, tape).Some?
    ensures var (id, rest) := DrawDigestId(used, tape).value;
      && |rest| < |tape| && IsRestOf(rest, tape)
      && id == DigestIdNew(tape[|tape| - |rest| - 1].asI32)
  {
    if DigestIdNew(tape[0].asI32) in used {
      DrawnIdIsOnTape(used, tape[1..]);
    }
  }

  lemma {:induction false} DecoyIsDrawn(used: set<nat>, tape: Tape)
    requires DrawDigestId(used, tape).Some? && |DrawDigestId(used, tape).value.1| > 0
    ensures var (id, rest) := DrawDigestId(used, tape).value;
      && |rest| < |tape| && IsRestOf(rest[1..], tape)
      && forall to: nat :: |tape| - |rest| < to <= |tape| ==> IsDecoy(Span(tape, -1, to), id, rest[0].asFill)
  {
    hide DrawDigestId, DigestIdNew;
    DrawnIdIsOnTape(used, tape);
    var (id, rest) := DrawDigestId(used, tape).value;
    assert DecoyAt(tape, |tape| - |rest| - 1, id, rest[0].asFill);
  }

  lemma {:induction false} ItemsLeaveRest(encode: Encoder, elements: seq<Element>, used: set<nat>, tape: Tape)
    requires IssueItems(encode, elements, used, tape).Success?
    ensures IsRestOf(IssueItems(encode, elements, used, tape).value.1, tape)
  {
    hide DrawDigestId;
    if |elements| > 0 {
      DrawnIdIsOnTape(used, tape);
      var (id, t1) := DrawDigestId(used, tape).value;
      ItemsLeaveRest(encode, elements[1..], used + {id}, t1[1..]);
      var rest := IssueItems(encode, elements, used, tape).value.1;
      assert rest == IssueItems(encode, elements[1..], used + {id}, t1[1..]).value.1;
      RestOfRest(rest, t1[1..], t1);
      RestOfRest(rest, t1, tape);
    }
  }

  lemma {:induction false} NamespacesLeaveRest(encode: Encoder, namespaces: seq<Namespace>, tape: Tape)
    requires IssueNamespaces(encode, namespaces, tape).Success?
    ensures IsRestOf(IssueNamespaces(encode, namespaces, tape).value.1, tape)
  {
    hide IssueItems;
    if |namespaces| > 0 {
      ItemsLeaveRest(encode, namespaces[0].elements, {}, tape);
      var t1 := IssueItems(encode, namespaces[0].elements, {}, tape).value.1;
      NamespacesLeaveRest(encode, namespaces[1..], t1);
      RestOfRest(IssueNamespaces(encode, namespaces, tape).value.1, t1, tape);
    }
  }

  ghost predicate DistinctIds(items: seq<IssuedItem>) {
    forall i, j :: 0 <= i < j < |items| ==> items[i].item.digestId != items[j].item.digestId
  }

  lemma {:induction false} DrawnIdIsFresh(used: set<nat>, tape: Tape)
    requires DrawDigestId(used, tape).Some?
    ensures DrawDigestId(used, tape).value.0 !in used
    ensures |DrawDigestId(used, tape).value.1| < |tape|
  {
    if DigestIdNew(tape[0].asI32) in used {
      DrawnIdIsFresh(used, tape[1..]);
    }
  }

  /** Every item carries its own element, its encoding, and an id no other item
      of the namespace has. */
  lemma {:induction false} IssuedItemsAreDistinct(encode: Encoder, elements: seq<Element>, used: set<nat>, tape: Tape)
    requires IssueItems(encode, elements, used, tape).Success?
    ensures var items := IssueItems(encode, elements, used, tape).value.0;
      && |items| == |elements|
      && DistinctIds(items)
      && (forall i :: 0 <= i < |items| ==> items[i].item.digestId !in used)
      && ItemsCarry(encode, elements, items)
  {
    if |elements| > 0 {
      DrawnIdIsFresh(used, tape);
      var (id, t1) := DrawDigestId(used, tape).value;
      IssuedItemsAreDistinct(encode, elements[1..], used + {id}, t1[1..]);
      var items := IssueItems(encode, elements, used, tape).value.0;
      var others := IssueItems(encode, elements[1..], used + {id}, t1[1..]).value.0;
      assert items == [items[0]] + others && items[0].item.digestId == id;
    }
  }

  // ---------- Issuing, position by position on the tape ----------

  /** Drawing from position `from` on, every id before the one at `to - 2` is
      used, that one is not and is `id`, and one more draw follows it. */
  ghost predicate DrawnAt(tape: Tape, from: nat, to: nat, used: set<nat>, id: nat) {
    && from + 2 <= to <= |tape|
    && (forall n :: from <= n < to - 2 ==> DigestIdNew(tape[n].asI32) in used)
    && id == DigestIdNew(tape[to - 2].asI32) && id !in used
  }

  lemma {:induction false} DrawIsFirstUnused(used: set<nat>, tape: Tape, whole: Tape)
    requires IsRestOf(tape, whole) && DrawDigestId(used, tape).Some? && |DrawDigestId(used, tape).value.1| > 0
    ensures var (id, rest) := DrawDigestId(used, tape).value;
      && |rest| < |tape| && IsRestOf(rest, whole)
      && DrawnAt(whole, |whole| - |tape|, |whole| - |rest| + 1, used, id)
  {
    if DigestIdNew(tape[0].asI32) in used {
      DrawIsFirstUnused(used, tape[1..], whole);
    }
  }

  lemma {:induction false} FirstUnusedIsDrawn(used: set<nat>, tape: Tape, from: nat, to: nat, id: nat)
    requires DrawnAt(tape, from, to, used, id)
    ensures DrawDigestId(used, tape[from..]) == Some((id, tape[to - 1..]))
    decreases |tape| - from
  {
    assert tape[from..][1..] == tape[from + 1..];
    if from < to - 2 {
      assert tape[from..][0] == tape[from];
      FirstUnusedIsDrawn(used, tape, from + 1, to, id);
    }
  }

  lemma {:induction false} NoneUnused(used: set<nat>, tape: Tape)
    ensures DrawDigestId(used, tape).None? <==> forall n :: 0 <= n < |tape| ==> DigestIdNew(tape[n].asI32) in used
  {
    if |tape| > 0 {
      NoneUnused(used, tape[1..]);
      assert forall n :: 0 < n < |tape| ==> tape[n] == tape[1..][n - 1];
      assert forall n :: 0 <= n < |tape[1..]| ==> tape[1..][n] == tape[n + 1];
    }
  }

  ghost function ItemIds(items: seq<IssuedItem>): set<nat> {
    set i | 0 <= i < |items| :: items[i].item.digestId
  }

  lemma ItemIdsFirst(items: seq<IssuedItem>, n: nat)
    requires 0 < n <= |items|
    ensures ItemIds(items[..n]) == {items[0].item.digestId} + ItemIds(items[1..][..n - 1])
  {
    var head, tail := items[..n], items[1..][..n - 1];
    assert forall i :: 0 < i < n ==> head[i] == tail[i - 1];
    assert forall i :: 0 <= i < n - 1 ==> tail[i] == head[i + 1];
  }

  /** An element's item: its id is the first unused draw from `from` on, its salt
      the 16 bytes drawn right after it, key and value the element's own, and its
      bytes its encoding. */
  ghost predicate ItemIssued(encode: Encoder, tape: Tape, from: nat, to: nat, used: set<nat>, element: Element,
                             issued: IssuedItem)
  {
    && DrawnAt(tape, from, to, used, issued.item.digestId)
    && issued.item.random == tape[to - 1].asSalt && |issued.item.random| == 16
    && issued.item.elementIdentifier == element.key && issued.item.elementValue == element.value
    && encode(issued.item) == Some(issued.innerBytes)
  }

  /** One item for each element, in order, drawn end to end between the marks;
      unused means not drawn before for these elements. */
  ghost predicate ItemsIssued(encode: Encoder, tape: Tape, marks: seq<nat>, used: set<nat>, elements: seq<Element>,
                              items: seq<IssuedItem>)
  {
    && |items| == |elements| && |marks| == |items| + 1
    && forall i :: 0 <= i < |items| ==>
         ItemIssued(encode, tape, marks[i], marks[i + 1], used + ItemIds(items[..i]), elements[i], items[i])
  }

  lemma MarksCount(encode: Encoder, tape: Tape, marks: seq<nat>, used: set<nat>, elements: seq<Element>,
                   items: seq<IssuedItem>)
    requires ItemsIssued(encode, tape, marks, used, elements, items)
    ensures |items| == |elements| && |marks| == |items| + 1
  {
  }

  lemma ItemsIssuedFirst(encode: Encoder, tape: Tape, marks: seq<nat>, used: set<nat>, elements: seq<Element>,
                         items: seq<IssuedItem>)
    requires |items| == |elements| > 0 && |marks| == |items| + 1
    ensures ItemsIssued(encode, tape, marks, used, elements, items)
       <==> && ItemIssued(encode, tape, marks[0], marks[1], used, elements[0], items[0])
            && ItemsIssued(encode, tape, marks[1..], used + {items[0].item.digestId}, elements[1..], items[1..])
  {
    hide ItemIssued;
    var id, others := items[0].item.digestId, items[1..];
    assert used + ItemIds(items[..0]) == used;
    forall i | 0 < i < |items|
      ensures used + ItemIds(items[..i]) == (used + {id}) + ItemIds(others[..i - 1])
    {
      ItemIdsFirst(items, i);
    }
    if ItemsIssued(encode, tape, marks, used, elements, items) {
      forall i | 0 <= i < |others|
        ensures ItemIssued(encode, tape, marks[1..][i], marks[1..][i + 1], (used + {id}) + ItemIds(others[..i]),
                           elements[1..][i], others[i])
      {
        assert ItemIssued(encode, tape, marks[i + 1], marks[i + 2], used + ItemIds(items[..i + 1]), elements[i + 1],
                          items[i + 1]);
      }
    }
    if && ItemIssued(encode, tape, marks[0], marks[1], used, elements[0], items[0])
       && ItemsIssued(encode, tape, marks[1..], used + {id}, elements[1..], others) {
      forall i | 0 <= i < |items|
        ensures ItemIssued(encode, tape, marks[i], marks[i + 1], used + ItemIds(items[..i]), elements[i], items[i])
      {
        if i > 0 {
          assert ItemIssued(encode, tape, marks[1..][i - 1], marks[1..][i], (used + {id}) + ItemIds(others[..i - 1]),
                            elements[1..][i - 1], others[i - 1]);
        }
      }
    }
  }

  lemma {:induction false} IssuingItemsMeans(encode: Encoder, elements: seq<Element>, used: set<nat>, tape: Tape,
                                             whole: Tape)
    returns (marks: seq<nat>)
    requires IsRestOf(tape, whole) && IssueItems(encode, elements, used, tape).Success?
    ensures var (items, rest) := IssueItems(encode, elements, used, tape).value;
      && IsRestOf(rest, whole)
      && ItemsIssued(encode, whole, marks, used, elements, items)
      && marks[0] == |whole| - |tape| && marks[|elements|] == |whole| - |rest|
  {
    hide DrawDigestId, ItemsIssued;
    var (items, rest) := IssueItems(encode, elements, used, tape).value;
    if |elements| == 0 {
      marks := [|whole| - |tape|];
      NothingIssued(encode, whole, marks, used);
    } else {
      DrawIsFirstUnused(used, tape, whole);
      var (id, t1) := DrawDigestId(used, tape).value;
      RestOfTail(t1, whole);
      var later := IssuingItemsMeans(encode, elements[1..], used + {id}, t1[1..], whole);
      var others := IssueItems(encode, elements[1..], used + {id}, t1[1..]).value.0;
      assert items == [items[0]] + others && items[1..] == others;
      MarksCount(encode, whole, later, used + {id}, elements[1..], others);
      marks := [|whole| - |tape|] + later;
      assert marks[1..] == later;
      ItemsIssuedFirst(encode, whole, marks, used, elements, items);
    }
  }

  lemma NothingIssued(encode: Encoder, tape: Tape, marks: seq<nat>, used: set<nat>)
    requires |marks| == 1
    ensures ItemsIssued(encode, tape, marks, used, [], [])
  {
  }

  lemma RestOfTail(rest: Tape, whole: Tape)
    requires IsRestOf(rest, whole) && |rest| > 0
    ensures IsRestOf(rest[1..], whole)
  {
  }

  lemma {:induction false} IssuingItemsFollows(encode: Encoder, elements: seq<Element>, used: set<nat>, tape: Tape,
                                               marks: seq<nat>, items: seq<IssuedItem>)
    requires ItemsIssued(encode, tape, marks, used, elements, items) && marks[0] <= |tape|
    ensures marks[|elements|] <= |tape|
    ensures IssueItems(encode, elements, used, tape[marks[0]..]) == Success((items, tape[marks[|elements|]..]))
  {
    hide DrawDigestId, ItemsIssued;
    MarksCount(encode, tape, marks, used, elements, items);
    if |elements| > 0 {
      ItemsIssuedFirst(encode, tape, marks, used, elements, items);
      var id := items[0].item.digestId;
      FirstUnusedIsDrawn(used, tape, marks[0], marks[1], id);
      IssuingItemsFollows(encode, elements[1..], used + {id}, tape, marks[1..], items[1..]);
      assert tape[marks[1] - 1..][1..] == tape[marks[1]..] && tape[marks[1] - 1..][0] == tape[marks[1] - 1];
      assert items == [items[0]] + items[1..];
      assert items[0].item == IssuerSignedItem(id, tape[marks[1] - 1].asSalt, elements[0].key, elements[0].value);
    }
  }

  /** A namespace under its own name, with its elements' items issued between two
      positions of the tape. */
  ghost predicate NamespaceIssued(encode: Encoder, tape: Tape, from: nat, to: nat, namespace: Namespace,
                                  issued: IssuerNamespace)
  {
    && issued.name == namespace.name && |namespace.elements| > 0
    && exists marks :: ItemsIssued(encode, tape, marks, {}, namespace.elements, issued.items)
                       && marks[0] == from && marks[|marks| - 1] == to
  }

  ghost predicate NamespacesIssued(encode: Encoder, tape: Tape, borders: seq<nat>, namespaces: seq<Namespace>,
                                   issued: seq<IssuerNamespace>)
  {
    && |issued| == |namespaces| && |borders| == |issued| + 1
    && forall k :: 0 <= k < |issued| ==>
         NamespaceIssued(encode, tape, borders[k], borders[k + 1], namespaces[k], issued[k])
  }

  lemma {:induction false} IssuingMeans(encode: Encoder, namespaces: seq<Namespace>, tape: Tape, whole: Tape)
    returns (borders: seq<nat>)
    requires IsRestOf(tape, whole) && IssueNamespaces(encode, namespaces, tape).Success?
    ensures var (issued, rest) := IssueNamespaces(encode, namespaces, tape).value;
      && IsRestOf(rest, whole)
      && NamespacesIssued(encode, whole, borders, namespaces, issued)
      && borders[0] == |whole| - |tape| && borders[|namespaces|] == |whole| - |rest|
  {
    hide IssueItems, ItemsIssued;
    borders := [|whole| - |tape|];
    if |namespaces| > 0 {
      var (items, t1) := IssueItems(encode, namespaces[0].elements, {}, tape).value;
      var marks := IssuingItemsMeans(encode, namespaces[0].elements, {}, tape, whole);
      MarksCount(encode, whole, marks, {}, namespaces[0].elements, items);
      var later := IssuingMeans(encode, namespaces[1..], t1, whole);
      borders := borders + later;
      assert NamespaceIssued(encode, whole, borders[0], borders[1], namespaces[0],
                             IssuerNamespace(namespaces[0].name, items));
      hide NamespaceIssued;
      var issued := IssueNamespaces(encode, namespaces, tape).value.0;
      var others := IssueNamespaces(encode, namespaces[1..], t1).value.0;
      assert issued == [IssuerNamespace(namespaces[0].name, items)] + others;
      forall k | 0 < k < |issued|
        ensures NamespaceIssued(encode, whole, borders[k], borders[k + 1], namespaces[k], issued[k])
      {
        assert NamespaceIssued(encode, whole, later[k - 1], later[k], namespaces[1..][k - 1], others[k - 1]);
      }
    }
  }

  lemma {:induction false} IssuingFollows(encode: Encoder, namespaces: seq<Namespace>, tape: Tape, borders: seq<nat>,
                                          issued: seq<IssuerNamespace>)
    requires NamespacesIssued(encode, tape, borders, namespaces, issued) && borders[0] <= |tape|
    ensures borders[|namespaces|] <= |tape|
    ensures IssueNamespaces(encode, namespaces, tape[borders[0]..])
         == Success((issued, tape[borders[|namespaces|]..]))
    decreases |namespaces|
  {
    hide IssueItems, ItemIssued;
    if |namespaces| > 0 {
      assert NamespaceIssued(encode, tape, borders[0], borders[1], namespaces[0], issued[0]);
      var marks :| ItemsIssued(encode, tape, marks, {}, namespaces[0].elements, issued[0].items)
                   && marks[0] == borders[0] && marks[|marks| - 1] == borders[1];
      IssuingItemsFollows(encode, namespaces[0].elements, {}, tape, marks, issued[0].items);
      hide NamespaceIssued;
      forall k | 0 <= k < |issued| - 1
        ensures NamespaceIssued(encode, tape, borders[1..][k], borders[1..][k + 1], namespaces[1..][k], issued[1..][k])
      {
        assert NamespaceIssued(encode, tape, borders[k + 1], borders[k + 2], namespaces[k + 1], issued[k + 1]);
      }
      IssuingFollows(encode, namespaces[1..], tape, borders[1..], issued[1..]);
      assert issued == [issued[0]] + issued[1..];
      assert issued[0] == IssuerNamespace(namespaces[0].name, issued[0].items);
    }
  }

  /** Issuing succeeds with certain namespaces if and only if those are the ones
      drawn from the tape, end to end from its start, and it leaves what
      follows. */
  lemma {:induction false} IssuingExactly(encode: Encoder, namespaces: seq<Namespace>, tape: Tape,
                                          issued: seq<IssuerNamespace>, rest: Tape)
    ensures IssuerNamespacesOf(encode, namespaces, tape) == Success((issued, rest))
       <==> && |namespaces| > 0 && IsRestOf(rest, tape)
            && exists borders :: NamespacesIssued(encode, tape, borders, namespaces, issued)
                                 && borders[0] == 0 && borders[|namespaces|] == |tape| - |rest|
  {
    hide IssueNamespaces, NamespaceIssued;
    if IssuerNamespacesOf(encode, namespaces, tape) == Success((issued, rest)) {
      var borders := IssuingMeans(encode, namespaces, tape, tape);
    }
    if |namespaces| > 0 && IsRestOf(rest, tape) {
      forall borders | NamespacesIssued(encode, tape, borders, namespaces, issued)
                       && borders[0] == 0 && borders[|namespaces|] == |tape| - |rest|
        ensures IssuerNamespacesOf(encode, namespaces, tape) == Success((issued, rest))
      {
        IssuingFollows(encode, namespaces, tape, borders, issued);
        assert tape[0..] == tape;
      }
    }
  }

  /** Why issuing stops at an element: the tape runs out while its id is drawn or
      before its salt, or its item cannot be encoded. */
  ghost predicate StopsAt(encode: Encoder, element: Element, used: set<nat>, tape: Tape, error: PlanError) {
    match DrawDigestId(used, tape)
    case None => error == TapeExhausted
    case Some((id, rest)) =>
      if |rest| == 0 then error == TapeExhausted
      else encode(IssuerSignedItem(id, rest[0].asSalt, element.key, element.value)).None? && error == EncodingFailed
  }

  lemma {:induction false} ItemsFailAt(encode: Encoder, elements: seq<Element>, used: set<nat>, tape: Tape)
    returns (j: nat)
    requires IssueItems(encode, elements, used, tape).Failure?
    ensures j < |elements| && IssueItems(encode, elements[..j], used, tape).Success?
    ensures var (items, rest) := IssueItems(encode, elements[..j], used, tape).value;
      StopsAt(encode, elements[j], used + ItemIds(items), rest, IssueItems(encode, elements, used, tape).error)
  {
    hide DrawDigestId;
    assert IssueItems(encode, elements[..0], used, tape) == Success(([], tape));
    assert used + ItemIds([]) == used;
    j := 0;
    var draw := DrawDigestId(used, tape);
    if draw.Some? && |draw.value.1| > 0 {
      var (id, t1) := draw.value;
      var item := IssuerSignedItem(id, t1[0].asSalt, elements[0].key, elements[0].value);
      if encode(item).Some? {
        var k := ItemsFailAt(encode, elements[1..], used + {id}, t1[1..]);
        j := k + 1;
        assert elements[..j][1..] == elements[1..][..k];
        var others := IssueItems(encode, elements[1..][..k], used + {id}, t1[1..]).value.0;
        var items := [IssuedItem(item, encode(item).value)] + others;
        ItemIdsFirst(items, |items|);
        assert items[..|items|] == items && items[1..][..|items| - 1] == others;
        assert used + ItemIds(items) == (used + {id}) + ItemIds(others);
      }
    }
  }

  /** Issuing fails at the first namespace that is empty or whose items cannot
      be issued, with that error. */
  lemma {:induction false} IssuingFailsAt(encode: Encoder, namespaces: seq<Namespace>, tape: Tape) returns (k: nat)
    requires IssueNamespaces(encode, namespaces, tape).Failure?
    ensures k < |namespaces| && IssueNamespaces(encode, namespaces[..k], tape).Success?
    ensures var rest := IssueNamespaces(encode, namespaces[..k], tape).value.1;
      var error := IssueNamespaces(encode, namespaces, tape).error;
      if namespaces[k].elements == [] then error == ElementRequired
      else IssueItems(encode, namespaces[k].elements, {}, rest) == Failure(error)
  {
    hide IssueItems;
    assert IssueNamespaces(encode, namespaces[..0], tape) == Success(([], tape));
    k := 0;
    EmptyIssues(encode, tape);
    var first := IssueItems(encode, namespaces[0].elements, {}, tape);
    if first.Success? {
      IssuedItemsAreDistinct(encode, namespaces[0].elements, {}, tape);
      if |first.value.0| > 0 {
        var n := IssuingFailsAt(encode, namespaces[1..], first.value.1);
        k := n + 1;
        assert namespaces[..k][1..] == namespaces[1..][..n];
      }
    }
  }

  lemma {:induction false} EmptyIssues(encode: Encoder, tape: Tape)
    ensures IssueItems(encode, [], {}, tape) == Success(([], tape))
  {
  }

  /** Issuing keeps names, order, keys and values, each item with its encoding;
      ids never collide inside a namespace. */
  lemma {:induction false} IssuedNamespacesMatch(encode: Encoder, namespaces: seq<Namespace>, tape: Tape)
    requires IssueNamespaces(encode, namespaces, tape).Success?
    ensures var issued := IssueNamespaces(encode, namespaces, tape).value.0;
      && |issued| == |namespaces|
      && (forall k :: 0 <= k < |issued| ==>
            && issued[k].name == namespaces[k].name
            && |issued[k].items| == |namespaces[k].elements| > 0
            && DistinctIds(issued[k].items)
            && ItemsCarry(encode, namespaces[k].elements, issued[k].items))
  {
    hide IssueItems, DistinctIds, ItemsCarry;
    if |namespaces| > 0 {
      IssuedItemsAreDistinct(encode, namespaces[0].elements, {}, tape);
      var (items, rest) := IssueItems(encode, namespaces[0].elements, {}, tape).value;
      IssuedNamespacesMatch(encode, namespaces[1..], rest);
      var issued := IssueNamespaces(encode, namespaces, tape).value.0;
      assert issued == [IssuerNamespace(namespaces[0].name, items)] + IssueNamespaces(encode, namespaces[1..],
          rest).value.0;
    }
  }

  /** Each item has its element's key and value, and its own encoding. */
  ghost predicate ItemsCarry(encode: Encoder, elements: seq<Element>, items: seq<IssuedItem>) {
    && |items| == |elements|
    && forall i :: 0 <= i < |items| ==>
         && items[i].item.elementIdentifier == elements[i].key
         && items[i].item.elementValue == elements[i].value
         && encode(items[i].item) == Some(items[i].innerBytes)
  }
}
