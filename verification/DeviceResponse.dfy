/** What a device puts in its response (src/presentation/device.rs): the filter
    over requested and permitted items, and the documents prepared from it. */
module DeviceResponse {
  import opened Fips180
  import opened DigestTypes

  datatype PermittedNamespace = PermittedNamespace(name: string, elements: seq<string>)
  datatype PermittedDoc = PermittedDoc(docType: string, namespaces: seq<PermittedNamespace>)

  predicate DifferentNames(namespaces: seq<PermittedNamespace>) {
    forall i, j :: 0 <= i < j < |namespaces| ==> namespaces[i].name != namespaces[j].name
  }

  predicate DifferentTypes(docs: seq<PermittedDoc>) {
    && (forall i, j :: 0 <= i < j < |docs| ==> docs[i].docType != docs[j].docType)
    && forall i :: 0 <= i < |docs| ==> DifferentNames(docs[i].namespaces)
  }

  /** Maps from document type and namespace, as entries in key order. */
  type PermittedItems = docs: seq<PermittedDoc> | DifferentTypes(docs) witness []

  datatype ItemsRequest = ItemsRequest(docType: string, namespaces: map<string, set<string>>)

  datatype Item = Item(bytes: seq<Byte>)

  datatype Document = Document(
    id: nat, namespaces: map<string, map<string, Item>>, signatureAlgorithm: Option<int>, issuerAuth: seq<Byte>)

  datatype ErrorCode = DataNotReturned | ApplicationSpecific(code: int)

  datatype DocumentError = DocumentError(docType: string, code: ErrorCode)

  type NamespaceErrors = map<string, map<string, ErrorCode>>

  datatype PreparedDocument = PreparedDocument(
    id: nat, docType: string, issued: Option<map<string, seq<Item>>>, issuerAuth: seq<Byte>,
    signaturePayload: seq<Byte>, errors: Option<NamespaceErrors>)

  /** The COSE payload to sign for a document type; encoding it may fail. */
  type Preparer = (string, int) -> Option<seq<Byte>>

  // ---------- The filter ----------

  function FirstRequest(requests: seq<ItemsRequest>, docType: string): Option<ItemsRequest> {
    if |requests| == 0 then None
    else if requests[0].docType == docType then Some(requests[0])
    else FirstRequest(requests[1..], docType)
  }

  function FilterElements(elements: seq<string>, requested: set<string>): seq<string> {
    if |elements| == 0 then []
    else (if elements[0] in requested then [elements[0]] else []) + FilterElements(elements[1..], requested)
  }

  function FilterNamespaces(namespaces: seq<PermittedNamespace>, item: ItemsRequest): seq<PermittedNamespace> {
    if |namespaces| == 0 then []
    else
      var first := namespaces[0];
      (if first.name in item.namespaces
       then [PermittedNamespace(first.name, FilterElements(first.elements, item.namespaces[first.name]))]
       else [])
      + FilterNamespaces(namespaces[1..], item)
  }

  function FilterPermitted(requests: seq<ItemsRequest>, permitted: seq<PermittedDoc>): seq<PermittedDoc> {
    if |permitted| == 0 then []
    else
      var first, others := permitted[0], FilterPermitted(requests, permitted[1..]);
      match FirstRequest(requests, first.docType)
      case None => others
      case Some(item) => [PermittedDoc(first.docType, FilterNamespaces(first.namespaces, item))] + others
  }

  lemma {:induction false} FirstRequestMeans(requests: seq<ItemsRequest>, docType: string)
    ensures FirstRequest(requests, docType).None?
       <==> forall i :: 0 <= i < |requests| ==> requests[i].docType != docType
    ensures FirstRequest(requests, docType).Some? ==>
              exists i :: 0 <= i < |requests| && requests[i] == FirstRequest(requests, docType).value
                          && requests[i].docType == docType
                          && forall j :: 0 <= j < i ==> requests[j].docType != docType
  {
    if |requests| > 0 && requests[0].docType != docType {
      FirstRequestMeans(requests[1..], docType);
      assert forall i :: 0 < i < |requests| ==> requests[i] == requests[1..][i - 1];
      if FirstRequest(requests, docType).Some? {
        var i :| 0 <= i < |requests[1..]| && requests[1..][i] == FirstRequest(requests, docType).value
                 && requests[1..][i].docType == docType
                 && forall j :: 0 <= j < i ==> requests[1..][j].docType != docType;
        assert requests[i + 1] == FirstRequest(requests, docType).value;
      }
    }
  }

  function Occurrences(elements: seq<string>, e: string): nat {
    multiset(elements)[e]
  }

  /** Filtering keeps each requested element as often as it was permitted, and
      drops the others. */
  lemma {:induction false} FilterElementsKeeps(elements: seq<string>, requested: set<string>, e: string)
    ensures Occurrences(FilterElements(elements, requested), e)
         == if e in requested then Occurrences(elements, e) else 0
  {
    if |elements| > 0 {
      FilterElementsKeeps(elements[1..], requested, e);
      assert elements == [elements[0]] + elements[1..];
    }
  }

  /** Filtering follows the elements: what is kept stays in order. */
  lemma {:induction false} FilterElementsFollows(a: seq<string>, b: seq<string>, requested: set<string>)
    ensures FilterElements(a + b, requested) == FilterElements(a, requested) + FilterElements(b, requested)
    ensures forall e: string :: FilterElements([e], requested) == if e in requested then [e] else []
  {
    forall e: string
      ensures FilterElements([e], requested) == if e in requested then [e] else []
    {
      assert [e][1..] == [] && FilterElements([], requested) == [];
    }
    if |a| == 0 {
      assert a + b == b;
    } else {
      assert (a + b)[1..] == a[1..] + b;
      FilterElementsFollows(a[1..], b, requested);
    }
  }

  /** Filtering goes namespace by namespace, in order, */
  lemma {:induction false} FilterNamespacesFollows(a: seq<PermittedNamespace>, b: seq<PermittedNamespace>,
                                                   item: ItemsRequest)
    ensures FilterNamespaces(a + b, item) == FilterNamespaces(a, item) + FilterNamespaces(b, item)
  {
    hide FilterElements;
    if |a| == 0 {
      assert a + b == b;
    } else {
      assert (a + b)[1..] == a[1..] + b;
      FilterNamespacesFollows(a[1..], b, item);
    }
  }

  /** and keeps those the request names, each with its own elements filtered. */
  lemma {:induction false} FilterOneNamespace(n: PermittedNamespace, item: ItemsRequest)
    ensures FilterNamespaces([n], item)
         == if n.name in item.namespaces
            then [PermittedNamespace(n.name, FilterElements(n.elements, item.namespaces[n.name]))] else []
  {
    hide FilterElements;
    assert [n][1..] == [] && FilterNamespaces([], item) == [];
  }

  /** And document by document, in order, */
  lemma {:induction false} FilterPermittedFollows(requests: seq<ItemsRequest>, a: seq<PermittedDoc>,
                                                  b: seq<PermittedDoc>)
    ensures FilterPermitted(requests, a + b) == FilterPermitted(requests, a) + FilterPermitted(requests, b)
  {
    hide FilterNamespaces, FirstRequest;
    if |a| == 0 {
      assert a + b == b;
    } else {
      assert (a + b)[1..] == a[1..] + b;
      FilterPermittedFollows(requests, a[1..], b);
    }
  }

  /** keeping those some request names, with the namespaces filtered by the first
      such request. */
  lemma {:induction false} FilterOneDoc(requests: seq<ItemsRequest>, doc: PermittedDoc)
    ensures FilterPermitted(requests, [doc])
         == match FirstRequest(requests, doc.docType)
            case None => []
            case Some(item) => [PermittedDoc(doc.docType, FilterNamespaces(doc.namespaces, item))]
  {
    hide FilterNamespaces, FirstRequest;
    assert [doc][1..] == [] && FilterPermitted(requests, []) == [];
  }

  lemma FilteredNamespaceAt(namespaces: seq<PermittedNamespace>, item: ItemsRequest, k: nat) returns (n: nat)
    requires k < |namespaces| && namespaces[k].name in item.namespaces
    ensures n < |FilterNamespaces(namespaces, item)|
    ensures FilterNamespaces(namespaces, item)[n]
         == PermittedNamespace(namespaces[k].name,
                               FilterElements(namespaces[k].elements, item.namespaces[namespaces[k].name]))
  {
    hide FilterNamespaces, FilterElements;
    var before, after := namespaces[..k], namespaces[k + 1..];
    assert namespaces == before + ([namespaces[k]] + after);
    FilterNamespacesFollows(before, [namespaces[k]] + after, item);
    FilterNamespacesFollows([namespaces[k]], after, item);
    FilterOneNamespace(namespaces[k], item);
    n := |FilterNamespaces(before, item)|;
  }

  lemma FilteredDocAt(requests: seq<ItemsRequest>, permitted: seq<PermittedDoc>, d: nat) returns (n: nat)
    requires d < |permitted| && FirstRequest(requests, permitted[d].docType).Some?
    ensures n < |FilterPermitted(requests, permitted)|
    ensures FilterPermitted(requests, permitted)[n]
         == PermittedDoc(permitted[d].docType,
                         FilterNamespaces(permitted[d].namespaces, FirstRequest(requests, permitted[d].docType).value))
  {
    hide FilterPermitted, FirstRequest, FilterNamespaces;
    var before, after := permitted[..d], permitted[d + 1..];
    assert permitted == before + ([permitted[d]] + after);
    FilterPermittedFollows(requests, before, [permitted[d]] + after);
    FilterPermittedFollows(requests, [permitted[d]], after);
    FilterOneDoc(requests, permitted[d]);
    n := |FilterPermitted(requests, before)|;
  }

  /** Element `e` of a namespace survives for a document type. */
  ghost predicate Permits(docs: seq<PermittedDoc>, docType: string, name: string, e: string) {
    exists d, k :: 0 <= d < |docs| && 0 <= k < |docs[d].namespaces|
                   && docs[d].docType == docType && docs[d].namespaces[k].name == name
                       && e in docs[d].namespaces[k].elements
  }

  ghost predicate PermitsIn(namespaces: seq<PermittedNamespace>, name: string, e: string) {
    exists k :: 0 <= k < |namespaces| && namespaces[k].name == name && e in namespaces[k].elements
  }

  predicate Requests(requests: seq<ItemsRequest>, docType: string, name: string, e: string) {
    var item := FirstRequest(requests, docType);
    item.Some? && name in item.value.namespaces && e in item.value.namespaces[name]
  }

  lemma {:induction false} FilterNamespacesExact(namespaces: seq<PermittedNamespace>, item: ItemsRequest, name: string,
                                                 e: string)
    ensures PermitsIn(FilterNamespaces(namespaces, item), name, e)
       <==> PermitsIn(namespaces, name, e) && name in item.namespaces && e in item.namespaces[name]
  {
    if |namespaces| > 0 {
      var first, others := namespaces[0], namespaces[1..];
      FilterNamespacesExact(others, item, name, e);
      assert namespaces == [first] + others;
      PermitsInJoins([first], others, name, e);
      if first.name in item.namespaces {
        var kept := PermittedNamespace(first.name, FilterElements(first.elements, item.namespaces[first.name]));
        FilterElementsKeeps(first.elements, item.namespaces[first.name], e);
        PermitsInJoins([kept], FilterNamespaces(others, item), name, e);
        assert PermitsIn([kept], name, e) <==> [kept][0].name == name && e in [kept][0].elements;
      } else {
        assert [] + FilterNamespaces(others, item) == FilterNamespaces(others, item);
      }
      assert PermitsIn([first], name, e) <==> [first][0].name == name && e in [first][0].elements;
    }
  }

  lemma PermitsInJoins(a: seq<PermittedNamespace>, b: seq<PermittedNamespace>, name: string, e: string)
    ensures PermitsIn(a + b, name, e) <==> PermitsIn(a, name, e) || PermitsIn(b, name, e)
  {
    assert forall k :: 0 <= k < |a| ==> (a + b)[k] == a[k];
    assert forall k :: 0 <= k < |b| ==> (a + b)[|a| + k] == b[k];
    assert forall k :: |a| <= k < |a + b| ==> (a + b)[k] == b[k - |a|];
  }

  lemma PermitsJoins(a: seq<PermittedDoc>, b: seq<PermittedDoc>, docType: string, name: string, e: string)
    ensures Permits(a + b, docType, name, e) <==> Permits(a, docType, name, e) || Permits(b, docType, name, e)
  {
    assert forall d :: 0 <= d < |a| ==> (a + b)[d] == a[d];
    assert forall d :: 0 <= d < |b| ==> (a + b)[|a| + d] == b[d];
    assert forall d :: |a| <= d < |a + b| ==> (a + b)[d] == b[d - |a|];
  }

  lemma PermitsOne(doc: PermittedDoc, docType: string, name: string, e: string)
    ensures Permits([doc], docType, name, e) <==> doc.docType == docType && PermitsIn(doc.namespaces, name, e)
  {
    if doc.docType == docType && PermitsIn(doc.namespaces, name, e) {
      var k :| 0 <= k < |doc.namespaces| && doc.namespaces[k].name == name && e in doc.namespaces[k].elements;
      assert [doc][0].namespaces[k].name == name;
    }
  }

  /** The filter is the intersection: an element survives exactly when it was
      permitted and the first request for its document type asks for it. */
  lemma {:induction false} FilterIsIntersection(requests: seq<ItemsRequest>, permitted: seq<PermittedDoc>,
                                                docType: string, name: string, e: string)
    ensures Permits(FilterPermitted(requests, permitted), docType, name, e)
       <==> Permits(permitted, docType, name, e) && Requests(requests, docType, name, e)
  {
    hide Permits, PermitsIn;
    if |permitted| == 0 {
      NothingPermitted(docType, name, e);
    } else {
      var first, others := permitted[0], permitted[1..];
      FilterIsIntersection(requests, others, docType, name, e);
      assert permitted == [first] + others;
      PermitsJoins([first], others, docType, name, e);
      PermitsOne(first, docType, name, e);
      FirstRequestMeans(requests, first.docType);
      match FirstRequest(requests, first.docType)
      case None =>
      case Some(item) =>
        var kept := PermittedDoc(first.docType, FilterNamespaces(first.namespaces, item));
        FilterNamespacesExact(first.namespaces, item, name, e);
        PermitsJoins([kept], FilterPermitted(requests, others), docType, name, e);
        PermitsOne(kept, docType, name, e);
    }
  }

  lemma NothingPermitted(docType: string, name: string, e: string)
    ensures !Permits([], docType, name, e)
  {
  }

  lemma {:induction false} FilterNamesComeFrom(namespaces: seq<PermittedNamespace>, item: ItemsRequest)
    requires DifferentNames(namespaces)
    ensures DifferentNames(FilterNamespaces(namespaces, item))
    ensures forall k :: 0 <= k < |FilterNamespaces(namespaces, item)| ==>
              exists n :: 0 <= n < |namespaces| && namespaces[n].name == FilterNamespaces(namespaces, item)[k].name
  {
    hide FilterElements;
    if |namespaces| > 0 {
      var others := FilterNamespaces(namespaces[1..], item);
      FilterNamesComeFrom(namespaces[1..], item);
      forall k | 0 <= k < |others|
        ensures others[k].name != namespaces[0].name
        ensures exists n :: 0 <= n < |namespaces| && namespaces[n].name == others[k].name
      {
        var n :| 0 <= n < |namespaces[1..]| && namespaces[1..][n].name == others[k].name;
        assert namespaces[n + 1].name == others[k].name;
      }
    }
  }

  ghost predicate HasType(docs: seq<PermittedDoc>, docType: string) {
    exists k :: 0 <= k < |docs| && docs[k].docType == docType
  }

  lemma NoTypes(docType: string)
    ensures !HasType([], docType)
  {
  }

  lemma HasTypeFirst(docs: seq<PermittedDoc>, docType: string)
    requires |docs| > 0
    ensures HasType(docs, docType) <==> docs[0].docType == docType || HasType(docs[1..], docType)
  {
    assert forall k :: 0 < k < |docs| ==> docs[k] == docs[1..][k - 1];
  }

  /** The filtered types are the permitted ones that some request names. */
  lemma {:induction false} FilterTypes(requests: seq<ItemsRequest>, permitted: seq<PermittedDoc>, docType: string)
    ensures HasType(FilterPermitted(requests, permitted), docType)
       <==> HasType(permitted, docType) && exists i :: 0 <= i < |requests| && requests[i].docType == docType
  {
    hide FilterNamespaces, HasType, FirstRequest;
    if |permitted| == 0 {
      NoTypes(docType);
    } else {
      FilterTypes(requests, permitted[1..], docType);
      HasTypeFirst(permitted, docType);
      FirstRequestMeans(requests, permitted[0].docType);
      var filtered := FilterPermitted(requests, permitted);
      if FirstRequest(requests, permitted[0].docType).Some? {
        assert filtered[1..] == FilterPermitted(requests, permitted[1..]);
        HasTypeFirst(filtered, docType);
      }
    }
  }

  /** No type and no namespace of a type is filtered twice. */
  lemma {:induction false} FilteredDiffer(requests: seq<ItemsRequest>, permitted: seq<PermittedDoc>)
    requires DifferentTypes(permitted)
    ensures DifferentTypes(FilterPermitted(requests, permitted))
  {
    hide FilterNamespaces, DifferentNames, FirstRequest;
    if |permitted| > 0 {
      var first, others := permitted[0], permitted[1..];
      var rest := FilterPermitted(requests, others);
      FilteredDiffer(requests, others);
      FilterTypes(requests, others, first.docType);
      assert !HasType(others, first.docType);
      assert forall k :: 0 <= k < |rest| ==> rest[k].docType != first.docType;
      if FirstRequest(requests, first.docType).Some? {
        FilterNamesComeFrom(first.namespaces, FirstRequest(requests, first.docType).value);
      }
    }
  }

  // ---------- Preparing documents ----------

  function HeldIn(document: Document, name: string): map<string, Item> {
    if name in document.namespaces then document.namespaces[name] else map[]
  }

  /** The items held among the elements, in order, as often as they occur. */
  function Held(elements: seq<string>, held: map<string, Item>): seq<Item> {
    if |elements| == 0 then []
    else
      var last := elements[|elements| - 1];
      Held(elements[..|elements| - 1], held) + if last in held then [held[last]] else []
  }

  function Missing(elements: seq<string>, held: map<string, Item>): set<string> {
    set e | e in elements && e !in held
  }

  function CodesFor(missing: set<string>): map<string, ErrorCode> {
    map e | e in missing :: DataNotReturned
  }

  ghost predicate NamespaceAnswered(document: Document, namespace: PermittedNamespace,
                                    issued: map<string, seq<Item>>, errors: NamespaceErrors)
  {
    var items := Held(namespace.elements, HeldIn(document, namespace.name));
    var missing := Missing(namespace.elements, HeldIn(document, namespace.name));
    && (if items == [] then namespace.name !in issued
        else namespace.name in issued && issued[namespace.name] == items)
    && (if missing == {} then namespace.name !in errors
        else namespace.name in errors && errors[namespace.name] == CodesFor(missing))
  }

  /** The issued items and the errors of a document: namespace by namespace the
      held items and the missing elements, and no other namespace. */
  ghost predicate NamespacesAnswered(document: Document, namespaces: seq<PermittedNamespace>,
                                     issued: map<string, seq<Item>>, errors: NamespaceErrors)
  {
    && (forall k :: 0 <= k < |namespaces| ==> NamespaceAnswered(document, namespaces[k], issued, errors))
    && (forall name :: name in issued || name in errors ==>
          exists k :: 0 <= k < |namespaces| && namespaces[k].name == name)
  }

  ghost predicate OnlyChanges<V>(name: string, before: map<string, V>, after: map<string, V>) {
    (forall other :: other != name ==> (other in before <==> other in after)) &&
    (forall other :: other != name && other in before && other in after ==> before[other] == after[other])
  }

  lemma ChangesAgain<V>(name: string, before: map<string, V>, after: map<string, V>, value: V)
    requires OnlyChanges(name, before, after)
    ensures OnlyChanges(name, before, after[name := value])
  {
  }

  function ItemsSoFar(issued: map<string, seq<Item>>, name: string): seq<Item> {
    if name in issued then issued[name] else []
  }

  function ErrorsSoFar(errors: NamespaceErrors, name: string): map<string, ErrorCode> {
    if name in errors then errors[name] else map[]
  }

  lemma HeldStep(document: Document, name: string, elements: seq<string>, n: nat, issued: map<string, seq<Item>>,
                 errors: NamespaceErrors)
    requires n < |elements| && elements[n] in HeldIn(document, name)
    requires NamespaceAnswered(document, PermittedNamespace(name, elements[..n]), issued, errors)
    ensures NamespaceAnswered(document, PermittedNamespace(name, elements[..n + 1]),
                              issued[name := ItemsSoFar(issued, name) + [HeldIn(document, name)[elements[n]]]], errors)
  {
    assert elements[..n + 1] == elements[..n] + [elements[n]];
    assert elements[..n + 1][..n] == elements[..n];
    assert Missing(elements[..n + 1], HeldIn(document, name)) == Missing(elements[..n], HeldIn(document, name));
  }

  lemma MissingStep(document: Document, name: string, elements: seq<string>, n: nat, issued: map<string, seq<Item>>,
                    errors: NamespaceErrors)
    requires n < |elements| && elements[n] !in HeldIn(document, name)
    requires NamespaceAnswered(document, PermittedNamespace(name, elements[..n]), issued, errors)
    ensures NamespaceAnswered(document, PermittedNamespace(name, elements[..n + 1]), issued,
                              errors[name := ErrorsSoFar(errors, name)[elements[n] := DataNotReturned]])
  {
    var held := HeldIn(document, name);
    assert elements[..n + 1] == elements[..n] + [elements[n]];
    assert elements[..n + 1][..n] == elements[..n];
    assert Missing(elements[..n + 1], held) == Missing(elements[..n], held) + {elements[n]};
    assert CodesFor({}) == map[];
    assert CodesFor(Missing(elements[..n], held) + {elements[n]})
        == CodesFor(Missing(elements[..n], held))[elements[n] := DataNotReturned];
  }

  method AnswerNamespace(document: Document, namespace: PermittedNamespace,
                         issuedBefore: map<string, seq<Item>>, errorsBefore: NamespaceErrors)
    returns (issued: map<string, seq<Item>>, errors: NamespaceErrors)
    requires namespace.name !in issuedBefore && namespace.name !in errorsBefore
    ensures NamespaceAnswered(document, namespace, issued, errors)
    ensures OnlyChanges(namespace.name, issuedBefore, issued) && OnlyChanges(namespace.name, errorsBefore, errors)
  {
    hide NamespaceAnswered, OnlyChanges;
    issued, errors := issuedBefore, errorsBefore;
    var name, elements := namespace.name, namespace.elements;
    NothingAnswered(document, name, issuedBefore, errorsBefore);
    if name in document.namespaces {
      var issuerItems := document.namespaces[name];
      for n := 0 to |elements|
        invariant NamespaceAnswered(document, PermittedNamespace(name, elements[..n]), issued, errors)
        invariant OnlyChanges(name, issuedBefore, issued) && OnlyChanges(name, errorsBefore, errors)
      {
        var e := elements[n];
        if e in issuerItems {
          HeldStep(document, name, elements, n, issued, errors);
          ChangesAgain(name, issuedBefore, issued, ItemsSoFar(issued, name) + [issuerItems[e]]);
          if name in issued {
            issued := issued[name := issued[name] + [issuerItems[e]]];
          } else {
            assert [] + [issuerItems[e]] == [issuerItems[e]];
            issued := issued[name := [issuerItems[e]]];
          }
        } else {
          MissingStep(document, name, elements, n, issued, errors);
          ChangesAgain(name, errorsBefore, errors, ErrorsSoFar(errors, name)[e := DataNotReturned]);
          if name in errors {
            errors := errors[name := errors[name][e := DataNotReturned]];
          } else {
            errors := errors[name := map[e := DataNotReturned]];
          }
        }
      }
    } else {
      for n := 0 to |elements|
        invariant NamespaceAnswered(document, PermittedNamespace(name, elements[..n]), issued, errors)
        invariant OnlyChanges(name, issuedBefore, issued) && OnlyChanges(name, errorsBefore, errors)
      {
        var e := elements[n];
        MissingStep(document, name, elements, n, issued, errors);
        ChangesAgain(name, errorsBefore, errors, ErrorsSoFar(errors, name)[e := DataNotReturned]);
        if name in errors {
          errors := errors[name := errors[name][e := DataNotReturned]];
        } else {
          errors := errors[name := map[e := DataNotReturned]];
        }
      }
    }
    assert elements[..|elements|] == elements;
  }

  lemma NothingAnswered(document: Document, name: string, issued: map<string, seq<Item>>, errors: NamespaceErrors)
    requires name !in issued && name !in errors
    ensures NamespaceAnswered(document, PermittedNamespace(name, []), issued, errors)
    ensures OnlyChanges(name, issued, issued) && OnlyChanges(name, errors, errors)
  {
  }

  method AnswerNamespaces(document: Document, namespaces: seq<PermittedNamespace>)
    returns (issued: map<string, seq<Item>>, errors: NamespaceErrors)
    requires DifferentNames(namespaces)
    ensures NamespacesAnswered(document, namespaces, issued, errors)
  {
    hide NamespaceAnswered, OnlyChanges;
    issued, errors := map[], map[];
    for n := 0 to |namespaces|
      invariant NamespacesAnswered(document, namespaces[..n], issued, errors)
    {
      ghost var issuedBefore, errorsBefore := issued, errors;
      issued, errors := AnswerNamespace(document, namespaces[n], issued, errors);
      OthersStayAnswered(document, namespaces, n, issuedBefore, errorsBefore, issued, errors);
    }
    assert namespaces[..|namespaces|] == namespaces;
  }

  lemma StaysAnswered(document: Document, namespace: PermittedNamespace, changed: string,
                      issuedBefore: map<string, seq<Item>>, errorsBefore: NamespaceErrors,
                      issued: map<string, seq<Item>>, errors: NamespaceErrors)
    requires namespace.name != changed && NamespaceAnswered(document, namespace, issuedBefore, errorsBefore)
    requires OnlyChanges(changed, issuedBefore, issued) && OnlyChanges(changed, errorsBefore, errors)
    ensures NamespaceAnswered(document, namespace, issued, errors)
  {
    hide Held, Missing, HeldIn, CodesFor;
  }

  lemma OthersStayAnswered(document: Document, namespaces: seq<PermittedNamespace>, n: nat,
                           issuedBefore: map<string, seq<Item>>, errorsBefore: NamespaceErrors,
                           issued: map<string, seq<Item>>, errors: NamespaceErrors)
    requires DifferentNames(namespaces) && n < |namespaces|
    requires NamespacesAnswered(document, namespaces[..n], issuedBefore, errorsBefore)
    requires NamespaceAnswered(document, namespaces[n], issued, errors)
    requires OnlyChanges(namespaces[n].name, issuedBefore, issued)
        && OnlyChanges(namespaces[n].name, errorsBefore, errors)
    ensures NamespacesAnswered(document, namespaces[..n + 1], issued, errors)
  {
    hide NamespaceAnswered;
    var next := namespaces[..n + 1];
    forall k | 0 <= k < |next|
      ensures NamespaceAnswered(document, next[k], issued, errors)
    {
      if k < n {
        assert namespaces[..n][k] == next[k];
        StaysAnswered(document, next[k], namespaces[n].name, issuedBefore, errorsBefore, issued, errors);
      }
    }
    forall name | name in issued || name in errors
      ensures exists k :: 0 <= k < |next| && next[k].name == name
    {
      if name == namespaces[n].name {
        assert next[n].name == name;
      } else {
        var k :| 0 <= k < |namespaces[..n]| && namespaces[..n][k].name == name;
        assert next[k].name == name;
      }
    }
  }

  // ---------- The response ----------

  /** The payload to sign for a filtered type, if a document can answer it. */
  function PayloadFor(documents: map<string, Document>, prepare: Preparer, docType: string): Option<seq<Byte>> {
    if docType !in documents || documents[docType].signatureAlgorithm.None? then None
    else prepare(docType, documents[docType].signatureAlgorithm.value)
  }

  ghost predicate IsPreparedFrom(documents: map<string, Document>, prepare: Preparer, doc: PermittedDoc,
                                 p: PreparedDocument)
  {
    && PayloadFor(documents, prepare, doc.docType) == Some(p.signaturePayload)
    && var document := documents[doc.docType];
    && p.docType == doc.docType && p.id == document.id && p.issuerAuth == document.issuerAuth
    && NamespacesAnswered(document, doc.namespaces, p.issued.UnwrapOr(map[]), p.errors.UnwrapOr(map[]))
    && p.issued != Some(map[]) && p.errors != Some(map[])
  }

  /** Filtered documents, in order, against the two lists they end up in. */
  ghost predicate Outcome(documents: map<string, Document>, prepare: Preparer, filtered: seq<PermittedDoc>,
                          prepared: seq<PreparedDocument>, errors: seq<DocumentError>)
    decreases |filtered|
  {
    if |filtered| == 0 then |prepared| == 0 && |errors| == 0
    else
      var doc, others := filtered[|filtered| - 1], filtered[..|filtered| - 1];
      if PayloadFor(documents, prepare, doc.docType).None? then
        && |errors| > 0 && errors[|errors| - 1] == DocumentError(doc.docType, DataNotReturned)
        && Outcome(documents, prepare, others, prepared, errors[..|errors| - 1])
      else
        && |prepared| > 0 && IsPreparedFrom(documents, prepare, doc, prepared[|prepared| - 1])
        && Outcome(documents, prepare, others, prepared[..|prepared| - 1], errors)
  }

  /** `try_into().ok()`: an empty map is no map. */
  function NonEmpty<K, V>(m: map<K, V>): (r: Option<map<K, V>>)
    ensures r.UnwrapOr(map[]) == m && r != Some(map[])
  {
    if m == map[] then None else Some(m)
  }

  method PrepareResponse(documents: map<string, Document>, prepare: Preparer, requests: seq<ItemsRequest>,
                         permitted: PermittedItems)
    returns (prepared: seq<PreparedDocument>, errors: Option<seq<DocumentError>>)
    ensures Outcome(documents, prepare, FilterPermitted(requests, permitted), prepared, errors.UnwrapOr([]))
    ensures errors != Some([])
  {
    hide NamespacesAnswered, FilterPermitted;
    prepared := [];
    var documentErrors: seq<DocumentError> := [];
    var filtered := FilterPermitted(requests, permitted);
    FilteredDiffer(requests, permitted);
    for n := 0 to |filtered|
      invariant Outcome(documents, prepare, filtered[..n], prepared, documentErrors)
    {
      var doc := filtered[n];
      assert filtered[..n + 1][..n] == filtered[..n];
      if doc.docType !in documents || documents[doc.docType].signatureAlgorithm.None? {
        documentErrors := documentErrors + [DocumentError(doc.docType, DataNotReturned)];
        continue;
      }
      var document := documents[doc.docType];
      var issued, elementErrors := AnswerNamespaces(document, doc.namespaces);
      var payload := prepare(doc.docType, document.signatureAlgorithm.value);
      if payload.None? {
        documentErrors := documentErrors + [DocumentError(doc.docType, DataNotReturned)];
        continue;
      }
      var next := PreparedDocument(document.id, doc.docType, NonEmpty(issued), document.issuerAuth,
                                   payload.value, NonEmpty(elementErrors));
      prepared := prepared + [next];
      assert prepared[..|prepared| - 1] + [next] == prepared;
    }
    assert filtered[..|filtered|] == filtered;
    errors := if |documentErrors| == 0 then None else Some(documentErrors);
  }

  // ---------- What a response holds ----------

  /** Every filtered type is answered exactly once: there are as many answers as
      types, */
  lemma {:induction false} AnswersAreCounted(documents: map<string, Document>, prepare: Preparer,
                                             filtered: seq<PermittedDoc>,
                                             prepared: seq<PreparedDocument>, errors: seq<DocumentError>)
    requires Outcome(documents, prepare, filtered, prepared, errors)
    ensures |prepared| + |errors| == |filtered|
    decreases |filtered|
  {
    hide IsPreparedFrom, PayloadFor;
    if |filtered| > 0 {
      var n := |filtered| - 1;
      if PayloadFor(documents, prepare, filtered[n].docType).None? {
        AnswersAreCounted(documents, prepare, filtered[..n], prepared, errors[..|errors| - 1]);
      } else {
        AnswersAreCounted(documents, prepare, filtered[..n], prepared[..|prepared| - 1], errors);
      }
    }
  }

  /** each type has its prepared document or its error, whichever the held
      document calls for, */
  lemma {:induction false} EachTypeIsAnswered(documents: map<string, Document>, prepare: Preparer,
                                              filtered: seq<PermittedDoc>,
                                              prepared: seq<PreparedDocument>, errors: seq<DocumentError>, k: nat)
    requires Outcome(documents, prepare, filtered, prepared, errors) && k < |filtered|
    ensures if PayloadFor(documents, prepare, filtered[k].docType).Some?
            then exists p :: 0 <= p < |prepared| && IsPreparedFrom(documents, prepare, filtered[k], prepared[p])
            else DocumentError(filtered[k].docType, DataNotReturned) in errors
    decreases |filtered|
  {
    hide IsPreparedFrom, PayloadFor;
    var n := |filtered| - 1;
    if k < n {
      assert filtered[..n][k] == filtered[k];
      if PayloadFor(documents, prepare, filtered[n].docType).None? {
        EachTypeIsAnswered(documents, prepare, filtered[..n], prepared, errors[..|errors| - 1], k);
      } else {
        EachTypeIsAnswered(documents, prepare, filtered[..n], prepared[..|prepared| - 1], errors, k);
      }
    }
  }

  /** and every prepared document comes from a filtered type, */
  lemma {:induction false} PreparedComesFrom(documents: map<string, Document>, prepare: Preparer,
                                             filtered: seq<PermittedDoc>,
                                             prepared: seq<PreparedDocument>, errors: seq<DocumentError>, p: nat)
    returns (k: nat)
    requires Outcome(documents, prepare, filtered, prepared, errors) && p < |prepared|
    ensures k < |filtered| && IsPreparedFrom(documents, prepare, filtered[k], prepared[p])
    decreases |filtered|
  {
    hide IsPreparedFrom, PayloadFor;
    var n := |filtered| - 1;
    if PayloadFor(documents, prepare, filtered[n].docType).None? {
      k := PreparedComesFrom(documents, prepare, filtered[..n], prepared, errors[..|errors| - 1], p);
    } else if p < |prepared| - 1 {
      k := PreparedComesFrom(documents, prepare, filtered[..n], prepared[..|prepared| - 1], errors, p);
    } else {
      k := n;
    }
  }

  /** as does every error, for a type no document can answer. */
  lemma {:induction false} ErrorComesFrom(documents: map<string, Document>, prepare: Preparer,
                                          filtered: seq<PermittedDoc>,
                                          prepared: seq<PreparedDocument>, errors: seq<DocumentError>, e: nat)
    returns (k: nat)
    requires Outcome(documents, prepare, filtered, prepared, errors) && e < |errors|
    ensures k < |filtered| && errors[e] == DocumentError(filtered[k].docType, DataNotReturned)
    ensures PayloadFor(documents, prepare, filtered[k].docType).None?
    decreases |filtered|
  {
    hide IsPreparedFrom, PayloadFor;
    var n := |filtered| - 1;
    if PayloadFor(documents, prepare, filtered[n].docType).Some? {
      k := ErrorComesFrom(documents, prepare, filtered[..n], prepared[..|prepared| - 1], errors, e);
    } else if e < |errors| - 1 {
      k := ErrorComesFrom(documents, prepare, filtered[..n], prepared, errors[..|errors| - 1], e);
    } else {
      k := n;
    }
  }

  /** No two answers are for the same type, so each filtered type has exactly
      one: a single prepared document or a single error. */
  lemma {:induction false} AnswersDiffer(documents: map<string, Document>, prepare: Preparer,
                                         filtered: seq<PermittedDoc>,
                                         prepared: seq<PreparedDocument>, errors: seq<DocumentError>)
    requires Outcome(documents, prepare, filtered, prepared, errors) && DifferentTypes(filtered)
    ensures forall p, q :: 0 <= p < q < |prepared| ==> prepared[p].docType != prepared[q].docType
    ensures forall e, f :: 0 <= e < f < |errors| ==> errors[e].docType != errors[f].docType
    ensures forall p, e :: 0 <= p < |prepared| && 0 <= e < |errors| ==> prepared[p].docType != errors[e].docType
    decreases |filtered|
  {
    hide NamespacesAnswered, DifferentNames, PayloadFor;
    if |filtered| > 0 {
      var n := |filtered| - 1;
      var others, docType := filtered[..n], filtered[n].docType;
      var fewer := PayloadFor(documents, prepare, docType).None?;
      var before := if fewer then prepared else prepared[..|prepared| - 1];
      var errorsBefore := if fewer then errors[..|errors| - 1] else errors;
      AnswersDiffer(documents, prepare, others, before, errorsBefore);
      forall p | 0 <= p < |before|
        ensures before[p].docType != docType
      {
        var k := PreparedComesFrom(documents, prepare, others, before, errorsBefore, p);
        assert filtered[k].docType != docType;
      }
      forall e | 0 <= e < |errorsBefore|
        ensures errorsBefore[e].docType != docType
      {
        var k := ErrorComesFrom(documents, prepare, others, before, errorsBefore, e);
        assert filtered[k].docType != docType;
      }
      assert fewer ==> errors == errorsBefore + [DocumentError(docType, DataNotReturned)];
      assert !fewer ==> prepared == before + [prepared[|prepared| - 1]];
    }
  }

  /** Held items follow the elements, one item for each that is held: order and
      multiplicity are kept. */
  lemma {:induction false} HeldFollows(a: seq<string>, b: seq<string>, held: map<string, Item>)
    ensures Held(a + b, held) == Held(a, held) + Held(b, held)
    ensures forall e: string :: Held([e], held) == if e in held then [held[e]] else []
  {
    HeldJoins(a, b, held);
    forall e: string
      ensures Held([e], held) == if e in held then [held[e]] else []
    {
      assert [e][..0] == [] && Held([], held) == [];
    }
  }

  lemma {:induction false} HeldJoins(a: seq<string>, b: seq<string>, held: map<string, Item>)
    ensures Held(a + b, held) == Held(a, held) + Held(b, held)
  {
    if |b| == 0 {
      assert a + b == a;
    } else {
      var front, last := b[..|b| - 1], b[|b| - 1];
      assert (a + b)[..|a + b| - 1] == a + front;
      HeldJoins(a, front, held);
      var one := if last in held then [held[last]] else [];
      assert Held(a + b, held) == Held(a + front, held) + one;
      assert Held(a, held) + Held(front, held) + one == Held(a, held) + (Held(front, held) + one);
    }
  }

  lemma {:induction false} HeldComesFrom(elements: seq<string>, held: map<string, Item>, i: nat) returns (e: string)
    requires i < |Held(elements, held)|
    ensures e in elements && e in held && Held(elements, held)[i] == held[e]
  {
    var last := elements[|elements| - 1];
    var front := elements[..|elements| - 1];
    if i < |Held(front, held)| {
      e := HeldComesFrom(front, held, i);
    } else {
      e := last;
    }
  }

  /** Nothing else leaves: every returned item is one the device holds for an
      element that was permitted and that the first request for its type asks
      for. */
  lemma {:induction false} OnlyPermittedAndRequested(
      documents: map<string, Document>, prepare: Preparer, requests: seq<ItemsRequest>, permitted: PermittedItems,
      prepared: seq<PreparedDocument>, errors: seq<DocumentError>, p: nat, name: string, i: nat)
    returns (e: string)
    requires Outcome(documents, prepare, FilterPermitted(requests, permitted), prepared, errors)
    requires p < |prepared| && prepared[p].issued.Some? && name in prepared[p].issued.value
    requires i < |prepared[p].issued.value[name]|
    ensures var docType := prepared[p].docType;
      && Permits(permitted, docType, name, e)
      && Requests(requests, docType, name, e)
      && docType in documents && e in HeldIn(documents[docType], name)
      && prepared[p].issued.value[name][i] == HeldIn(documents[docType], name)[e]
  {
    hide FilterPermitted, Outcome, Held, Requests, NamespacesAnswered, HeldIn, Permits;
    var filtered := FilterPermitted(requests, permitted);
    var k := PreparedComesFrom(documents, prepare, filtered, prepared, errors, p);
    var document, issued := documents[filtered[k].docType], prepared[p].issued.UnwrapOr(map[]);
    var n;
    n, e := ItemComesFrom(document, filtered[k].namespaces, issued, prepared[p].errors.UnwrapOr(map[]), name, i);
    SurvivesAt(filtered, k, n, e);
    FilterIsIntersection(requests, permitted, prepared[p].docType, name, e);
  }

  lemma SurvivesAt(docs: seq<PermittedDoc>, d: nat, k: nat, e: string)
    requires d < |docs| && k < |docs[d].namespaces| && e in docs[d].namespaces[k].elements
    ensures Permits(docs, docs[d].docType, docs[d].namespaces[k].name, e)
  {
  }

  lemma ItemComesFrom(document: Document, namespaces: seq<PermittedNamespace>, issued: map<string, seq<Item>>,
                      errors: NamespaceErrors,
                      name: string, i: nat) returns (n: nat, e: string)
    requires NamespacesAnswered(document, namespaces, issued, errors)
    requires name in issued && i < |issued[name]|
    ensures n < |namespaces| && namespaces[n].name == name && e in namespaces[n].elements
    ensures e in HeldIn(document, name) && issued[name][i] == HeldIn(document, name)[e]
  {
    hide Held, HeldIn, Missing, CodesFor;
    n :| 0 <= n < |namespaces| && namespaces[n].name == name;
    assert NamespaceAnswered(document, namespaces[n], issued, errors);
    e := HeldComesFrom(namespaces[n].elements, HeldIn(document, name), i);
  }

  /** A filtered element is listed as an error exactly when it is not held. */
  lemma {:induction false} ErrorExactlyWhenNotHeld(
      documents: map<string, Document>, prepare: Preparer, doc: PermittedDoc, p: PreparedDocument, k: nat, e: string)
    requires IsPreparedFrom(documents, prepare, doc, p)
    requires k < |doc.namespaces| && e in doc.namespaces[k].elements
    ensures var name := doc.namespaces[k].name;
      var errors := p.errors.UnwrapOr(map[]);
      var issued := p.issued.UnwrapOr(map[]);
      && (e !in HeldIn(documents[doc.docType], name) <==> name in errors && e in errors[name])
      && (e in HeldIn(documents[doc.docType], name) ==>
            name in issued && HeldIn(documents[doc.docType], name)[e] in issued[name])
  {
    var document, namespace := documents[doc.docType], doc.namespaces[k];
    assert NamespaceAnswered(document, namespace, p.issued.UnwrapOr(map[]), p.errors.UnwrapOr(map[]));
    var held := HeldIn(document, namespace.name);
    if e in held {
      HeldIsListed(namespace.elements, held, e);
    } else {
      assert e in Missing(namespace.elements, held);
    }
  }

  lemma {:induction false} HeldIsListed(elements: seq<string>, held: map<string, Item>, e: string)
    requires e in elements && e in held
    ensures held[e] in Held(elements, held)
  {
    var last, front := elements[|elements| - 1], elements[..|elements| - 1];
    assert elements == front + [last];
    if e != last {
      HeldIsListed(front, held, e);
    }
  }

  // ---------- The response, from requests, permissions and documents ----------

  /** `items` are the held items of the elements that are requested, at increasing
      positions: each as often as it occurs, in order. */
  ghost predicate ReturnsExactly(elements: seq<string>, requested: set<string>, held: map<string, Item>,
                                 items: seq<Item>, positions: seq<nat>)
  {
    && |items| == |positions|
    && (forall i, j :: 0 <= i < j < |positions| ==> positions[i] < positions[j])
    && (forall j :: j in positions <==> 0 <= j < |elements| && elements[j] in requested && elements[j] in held)
    && (forall i :: 0 <= i < |items| ==>
          positions[i] in positions && items[i] == held[elements[positions[i]]])
  }

  lemma {:induction false} HeldPositions(elements: seq<string>, requested: set<string>, held: map<string, Item>)
    returns (positions: seq<nat>)
    ensures ReturnsExactly(elements, requested, held, Held(FilterElements(elements, requested), held), positions)
  {
    hide ReturnsExactly, Held, FilterElements;
    positions := [];
    if |elements| == 0 {
      NoPositions(elements, requested, held);
    } else {
      var n := |elements| - 1;
      var front, last := elements[..n], elements[n];
      positions := HeldPositions(front, requested, held);
      HeldOfLast(front, last, requested, held);
      NextPosition(front, last, requested, held, Held(FilterElements(front, requested), held), positions);
      assert elements == front + [last];
      if last in requested && last in held {
        positions := positions + [n];
      } else {
        assert Held(FilterElements(front, requested), held) + [] == Held(FilterElements(front, requested), held);
      }
    }
  }

  lemma {:induction false} HeldOfLast(front: seq<string>, last: string, requested: set<string>, held: map<string, Item>)
    ensures Held(FilterElements(front + [last], requested), held)
         == Held(FilterElements(front, requested), held)
            + if last in requested && last in held then [held[last]] else []
  {
    hide FilterElements;
    FilterElementsFollows(front, [last], requested);
    var kept := FilterElements(front, requested);
    if last in requested {
      assert (kept + [last])[..|kept|] == kept;
    } else {
      assert kept + [] == kept;
    }
  }

  lemma {:induction false} NoPositions(elements: seq<string>, requested: set<string>, held: map<string, Item>)
    requires elements == []
    ensures ReturnsExactly(elements, requested, held, Held(FilterElements(elements, requested), held), [])
  {
  }

  lemma NextPosition(front: seq<string>, last: string, requested: set<string>, held: map<string, Item>,
                     items: seq<Item>, positions: seq<nat>)
    requires ReturnsExactly(front, requested, held, items, positions)
    ensures if last in requested && last in held
            then ReturnsExactly(front + [last], requested, held, items + [held[last]], positions + [|front|])
            else ReturnsExactly(front + [last], requested, held, items, positions)
  {
    var elements := front + [last];
    assert forall j :: 0 <= j < |front| ==> elements[j] == front[j];
    assert forall i :: 0 <= i < |positions| ==> positions[i] in positions;
    if last in requested && last in held {
      var more := positions + [|front|];
      assert forall j :: j in more <==> j in positions || j == |front|;
    }
  }

  /** What a device holds of a namespace of a document. */
  ghost predicate IsHeld(document: Document, name: string, held: map<string, Item>) {
    held == if name in document.namespaces then document.namespaces[name] else map[]
  }

  /** Request `r` is the first for its document type. */
  predicate IsFirst(requests: seq<ItemsRequest>, r: nat)
    requires r < |requests|
  {
    forall j :: 0 <= j < r ==> requests[j].docType != requests[r].docType
  }

  lemma {:induction false} FirstIs(requests: seq<ItemsRequest>, r: nat)
    requires r < |requests| && IsFirst(requests, r)
    ensures FirstRequest(requests, requests[r].docType) == Some(requests[r])
  {
    if r > 0 {
      assert requests[0].docType != requests[r].docType;
      assert forall j :: 0 <= j < r - 1 ==> requests[1..][j] == requests[j + 1];
      FirstIs(requests[1..], r - 1);
    }
  }

  /** A permitted namespace of a document that was prepared: if the first request
      for its type names the namespace, the items returned for it are exactly the
      held ones among its permitted elements that are requested, in their order
      and as often, and the errors are exactly the requested and permitted
      elements that are not held; if it does not, nothing is said about it. */
  lemma {:induction false} ResponseIsExact(
      documents: map<string, Document>, prepare: Preparer, requests: seq<ItemsRequest>, permitted: PermittedItems,
      prepared: seq<PreparedDocument>, errors: seq<DocumentError>, p: nat, d: nat, k: nat, r: nat,
      held: map<string, Item>)
    returns (positions: seq<nat>)
    requires Outcome(documents, prepare, FilterPermitted(requests, permitted), prepared, errors)
    requires p < |prepared| && d < |permitted| && k < |permitted[d].namespaces| && r < |requests|
    requires prepared[p].docType == permitted[d].docType == requests[r].docType && IsFirst(requests, r)
    requires permitted[d].docType in documents
    requires IsHeld(documents[permitted[d].docType], permitted[d].namespaces[k].name, held)
    ensures var (name, elements) := (permitted[d].namespaces[k].name, permitted[d].namespaces[k].elements);
      var issued := ItemsSoFar(prepared[p].issued.UnwrapOr(map[]), name);
      var codes := ErrorsSoFar(prepared[p].errors.UnwrapOr(map[]), name);
      if name in requests[r].namespaces then
        var requested := requests[r].namespaces[name];
        && ReturnsExactly(elements, requested, held, issued, positions)
        && (forall e :: e in codes <==> e in elements && e in requested && e !in held)
        && (forall e :: e in codes ==> codes[e] == DataNotReturned)
      else issued == [] && codes == map[]
  {
    hide Outcome, FilterPermitted, ReturnsExactly, NamespaceAnswered;
    var doc := permitted[d];
    var name := doc.namespaces[k].name;
    FirstIs(requests, r);
    var filtered := FilterPermitted(requests, permitted);
    var m := FilteredDocAt(requests, permitted, d);
    var f := PreparedComesFrom(documents, prepare, filtered, prepared, errors, p);
    FilteredDiffer(requests, permitted);
    assert f == m;
    FilterNamesComeFrom(doc.namespaces, requests[r]);
    positions := [];
    if name in requests[r].namespaces {
      positions := AnsweredFrom(documents[doc.docType], doc.namespaces, requests[r], k, held,
                                prepared[p].issued.UnwrapOr(map[]), prepared[p].errors.UnwrapOr(map[]));
    } else {
      UnnamedIsFiltered(doc.namespaces, requests[r], name);
    }
  }

  lemma {:induction false} UnnamedIsFiltered(namespaces: seq<PermittedNamespace>, item: ItemsRequest, name: string)
    requires name !in item.namespaces
    ensures forall k :: 0 <= k < |FilterNamespaces(namespaces, item)| ==>
        FilterNamespaces(namespaces, item)[k].name != name
  {
    hide FilterElements;
    if |namespaces| > 0 {
      UnnamedIsFiltered(namespaces[1..], item, name);
    }
  }

  lemma {:induction false} AnsweredFrom(document: Document, namespaces: seq<PermittedNamespace>, item: ItemsRequest,
                                        k: nat, held: map<string, Item>, issued: map<string, seq<Item>>,
                                        errors: NamespaceErrors)
    returns (positions: seq<nat>)
    requires NamespacesAnswered(document, FilterNamespaces(namespaces, item), issued, errors)
    requires k < |namespaces| && namespaces[k].name in item.namespaces
    requires IsHeld(document, namespaces[k].name, held)
    ensures var (name, elements) := (namespaces[k].name, namespaces[k].elements);
      var codes := ErrorsSoFar(errors, name);
      && ReturnsExactly(elements, item.namespaces[name], held, ItemsSoFar(issued, name), positions)
      && (forall e :: e in codes <==> e in elements && e in item.namespaces[name] && e !in held)
      && (forall e :: e in codes ==> codes[e] == DataNotReturned)
  {
    hide ReturnsExactly, FilterNamespaces, Held, FilterElements;
    var name, elements, requested := namespaces[k].name, namespaces[k].elements, item.namespaces[namespaces[k].name];
    var n := FilteredNamespaceAt(namespaces, item, k);
    var kept := FilterElements(elements, requested);
    assert NamespaceAnswered(document, FilterNamespaces(namespaces, item)[n], issued, errors);
    positions := HeldPositions(elements, requested, held);
    assert CodesFor({}) == map[];
    assert ErrorsSoFar(errors, name) == CodesFor(Missing(kept, held));
    forall e: string
      ensures e in kept <==> e in elements && e in requested
    {
      FilterElementsKeeps(elements, requested, e);
      OccursIfIn(kept, e);
      OccursIfIn(elements, e);
    }
  }

  lemma OccursIfIn(elements: seq<string>, e: string)
    ensures e in elements <==> Occurrences(elements, e) > 0
  {
  }

  /** Every permitted type that some request names is answered: by a document
      prepared from the device's own, with the payload to sign, when there is one
      with a signature algorithm and a payload can be made; by an error when not. */
  lemma {:induction false} PermittedTypeIsAnswered(
      documents: map<string, Document>, prepare: Preparer, requests: seq<ItemsRequest>, permitted: PermittedItems,
      prepared: seq<PreparedDocument>, errors: seq<DocumentError>, d: nat, r: nat)
    requires Outcome(documents, prepare, FilterPermitted(requests, permitted), prepared, errors)
    requires d < |permitted| && r < |requests| && requests[r].docType == permitted[d].docType
    ensures var docType := permitted[d].docType;
      if && docType in documents && documents[docType].signatureAlgorithm.Some?
         && prepare(docType, documents[docType].signatureAlgorithm.value).Some?
      then exists p :: && 0 <= p < |prepared| && prepared[p].docType == docType
                       && prepared[p].id == documents[docType].id
                       && prepared[p].issuerAuth == documents[docType].issuerAuth
                       && prepare(docType, documents[docType].signatureAlgorithm.value)
                          == Some(prepared[p].signaturePayload)
      else DocumentError(docType, DataNotReturned) in errors
  {
    hide Outcome, FilterPermitted, NamespacesAnswered;
    FirstRequestMeans(requests, permitted[d].docType);
    var m := FilteredDocAt(requests, permitted, d);
    EachTypeIsAnswered(documents, prepare, FilterPermitted(requests, permitted), prepared, errors, m);
  }

  /** The prepared documents follow the filtered types. */
  lemma {:induction false} PreparedInOrder(documents: map<string, Document>, prepare: Preparer,
                                           filtered: seq<PermittedDoc>,
                                           prepared: seq<PreparedDocument>, errors: seq<DocumentError>)
    returns (positions: seq<nat>)
    requires Outcome(documents, prepare, filtered, prepared, errors)
    ensures |positions| == |prepared|
    ensures forall p :: 0 <= p < |prepared| ==>
              && positions[p] < |filtered|
              && IsPreparedFrom(documents, prepare, filtered[positions[p]], prepared[p])
    ensures forall p, q :: 0 <= p < q < |prepared| ==> positions[p] < positions[q]
    decreases |filtered|
  {
    hide IsPreparedFrom, PayloadFor;
    positions := [];
    if |filtered| > 0 {
      var n := |filtered| - 1;
      if PayloadFor(documents, prepare, filtered[n].docType).None? {
        positions := PreparedInOrder(documents, prepare, filtered[..n], prepared, errors[..|errors| - 1]);
      } else {
        positions := PreparedInOrder(documents, prepare, filtered[..n], prepared[..|prepared| - 1], errors);
        positions := positions + [n];
      }
    }
  }
}
