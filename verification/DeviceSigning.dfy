/** The device's signing run, from a prepared response to an encrypted answer
    (src/presentation/device.rs). */
module DeviceSigning {
  import opened Fips180
  import opened DigestTypes
  import opened DeviceResponse
  import opened SessionChannel

  datatype Status = OK | GeneralError | CborDecodingError | CborValidationError
  datatype SessionStatus = SessionEncryptionError | SessionCborDecodingError | SessionTermination

  datatype SignedDocument = SignedDocument(document: PreparedDocument, signature: seq<Byte>)

  datatype PreparedResponse = PreparedResponse(
    prepared: seq<PreparedDocument>, signed: seq<SignedDocument>, documentErrors: Option<seq<DocumentError>>,
    status: Status)

  datatype Response = Response(documents: Option<seq<SignedDocument>>, documentErrors: Option<seq<DocumentError>>,
                               status: Status)

  datatype SessionData = SessionData(status: Option<SessionStatus>, data: Option<Ciphertext>)

  datatype State = AwaitingRequest | Signing(response: PreparedResponse) | ReadyToRespond(message: SessionData)

  /** CBOR encoding of a response and of a session message; both may fail. */
  datatype Codec = Codec(response: Response -> Option<seq<Byte>>, message: SessionData -> bool)

  function EmptyResponse(status: Status): PreparedResponse {
    PreparedResponse([], [], None, status)
  }

  function NonEmptySeq<T>(s: seq<T>): Option<seq<T>> {
    if |s| == 0 then None else Some(s)
  }

  // ---------- The prepared response ----------

  function NextPayload(p: PreparedResponse): Option<(nat, seq<Byte>)> {
    if |p.prepared| == 0 then None
    else var last := p.prepared[|p.prepared| - 1]; Some((last.id, last.signaturePayload))
  }

  function SubmitTo(p: PreparedResponse, signature: seq<Byte>): PreparedResponse {
    if |p.prepared| == 0 then p
    else
      var n := |p.prepared| - 1;
      p.(prepared := p.prepared[..n], signed := p.signed + [SignedDocument(p.prepared[n], signature)])
  }

  function FinalizeResponse(p: PreparedResponse): Response {
    if |p.prepared| != 0 then Response(None, None, GeneralError)
    else Response(NonEmptySeq(p.signed), p.documentErrors, p.status)
  }

  // ---------- The session manager ----------

  /** What the signing run reads and changes. */
  datatype Machine = Machine(state: State, count: U32)

  function Submit(codec: Codec, key: Key, m: Machine, signature: seq<Byte>, backendFails: bool): (Machine, bool) {
    if !m.state.Signing? then (m, true)
    else
      var p := SubmitTo(m.state.response, signature);
      if |p.prepared| != 0 then (m.(state := Signing(p)), true)
      else
        match codec.response(FinalizeResponse(p))
        case None => (m.(state := AwaitingRequest), false)
        case Some(bytes) =>
          var (c, count) := SealStep(key, bytes, m.count, false, backendFails);
          var message := if c.Some? then SessionData(None, c) else SessionData(Some(SessionEncryptionError), None);
          if codec.message(message) then (Machine(ReadyToRespond(message), count), true)
          else (Machine(AwaitingRequest, count), false)
  }

  // ---------- The whole manager ----------

  datatype Manager = Manager(channel: Endpoint, state: State)

  /** The status a request's plaintext is refused with, if it does not parse. */
  type Refusal = seq<Byte> -> Option<Status>

  function Receive(refuse: Refusal, m: Manager, data: Option<Ciphertext>, backendFails: bool): Manager {
    if data.None? then m
    else
      var (plaintext, channel) := m.channel.OpenAsDevice(data.value, backendFails);
      if plaintext.None? || refuse(plaintext.value).None? then Manager(channel, m.state)
      else Manager(channel, Signing(EmptyResponse(refuse(plaintext.value).value)))
  }

  function Sign(codec: Codec, m: Manager, signature: seq<Byte>, backendFails: bool): Manager {
    var next := Submit(codec, m.channel.skDevice, Machine(m.state, m.channel.deviceCount), signature, backendFails).0;
    Manager(m.channel.(deviceCount := next.count), next.state)
  }

  function RefusalOf<Request>(parse: seq<Byte> -> Result<Request, Status>): Refusal {
    plaintext => match parse(plaintext)
      case Failure(status) => Some(status)
      case Success(_) => None
  }

  datatype RequestOutcome<Request> = NotDecoded | NoData | DecryptionFailed | Refused | Validated(request: Request)

  class SessionManager {
    var state: State
    const skReader: Key
    const skDevice: Key
    const readerMessageCounter: MessageCounter
    const deviceMessageCounter: MessageCounter

    predicate Valid() {
      readerMessageCounter != deviceMessageCounter
    }

    function Channel(): Endpoint
      reads readerMessageCounter, deviceMessageCounter
    {
      Endpoint(skReader, skDevice, readerMessageCounter.count, deviceMessageCounter.count)
    }

    function Snapshot(): Manager
      reads this, readerMessageCounter, deviceMessageCounter
    {
      Manager(Channel(), state)
    }

    function Value(): Machine
      reads this, deviceMessageCounter
    {
      Machine(state, deviceMessageCounter.count)
    }

    constructor (skReader: Key, skDevice: Key)
      ensures Valid() && fresh(readerMessageCounter) && fresh(deviceMessageCounter)
      ensures state == AwaitingRequest && Channel() == Endpoint(skReader, skDevice, 0, 0)
    {
      state := AwaitingRequest;
      this.skReader := skReader;
      this.skDevice := skDevice;
      readerMessageCounter := new MessageCounter();
      deviceMessageCounter := new MessageCounter();
    }

    /** `envelope` is the session message, if it decodes, with its data, if any. */
    method HandleRequest<Request>(envelope: Option<Option<Ciphertext>>, parse: seq<Byte> -> Result<Request, Status>,
                                  backendFails: bool)
      returns (r: RequestOutcome<Request>)
      requires Valid()
      modifies this`state, readerMessageCounter
      ensures envelope.None? ==> r == NotDecoded && Snapshot() == old(Snapshot())
      ensures envelope.Some? ==>
                Snapshot() == Receive(RefusalOf(parse), old(Snapshot()), envelope.value, backendFails)
    {
      if envelope.None? {
        return NotDecoded;
      }
      r := HandleDecodedRequest(envelope.value, parse, backendFails);
    }

    /** `parse` fails with the status to answer. A request that opens but does
        not parse still counts as received, and is answered by an empty response. */
    method HandleDecodedRequest<Request>(data: Option<Ciphertext>, parse: seq<Byte> -> Result<Request, Status>,
                                         backendFails: bool)
      returns (r: RequestOutcome<Request>)
      requires Valid()
      modifies this`state, readerMessageCounter
      ensures Snapshot() == Receive(RefusalOf(parse), old(Snapshot()), data, backendFails)
      ensures data.None? ==> r == NoData && Channel() == old(Channel()) && state == old(state)
      ensures data.Some? ==>
                && Channel() == old(Channel()).OpenAsDevice(data.value, backendFails).1
                && match old(Channel()).OpenAsDevice(data.value, backendFails).0
                   case None => r == DecryptionFailed && state == old(state)
                   case Some(plaintext) =>
                     match parse(plaintext)
                     case Failure(status) => r == Refused && state == Signing(EmptyResponse(status))
                     case Success(request) => r == Validated(request) && state == old(state)
    {
      if data.None? {
        return NoData;
      }
      var plaintext := readerMessageCounter.Decrypt(skReader, data.value, true, backendFails);
      if plaintext.None? {
        return DecryptionFailed;
      }
      var request := parse(plaintext.value);
      if request.Failure? {
        state := Signing(EmptyResponse(request.error));
        return Refused;
      }
      r := Validated(request.value);
    }

    method Prepare(documents: map<string, Document>, prepare: Preparer, requests: seq<ItemsRequest>,
                   permitted: PermittedItems)
      modifies this`state
      ensures state.Signing? && state.response.signed == [] && state.response.status == OK
      ensures Outcome(documents, prepare, FilterPermitted(requests, permitted), state.response.prepared,
                      state.response.documentErrors.UnwrapOr([]))
      ensures state.response.documentErrors != Some([])
    {
      hide Outcome, FilterPermitted;
      var prepared, errors := PrepareResponse(documents, prepare, requests, permitted);
      state := Signing(PreparedResponse(prepared, [], errors, OK));
    }

    function GetNextSignaturePayload(): Option<(nat, seq<Byte>)>
      reads this
    {
      match state
      case Signing(p) => NextPayload(p)
      case _ => None
    }

    method SubmitNextSignature(codec: Codec, signature: seq<Byte>, backendFails: bool) returns (ok: bool)
      requires Valid()
      modifies this`state, deviceMessageCounter
      ensures (Value(), ok) == Submit(codec, skDevice, old(Value()), signature, backendFails)
      ensures Snapshot() == Sign(codec, old(Snapshot()), signature, backendFails)
      ensures readerMessageCounter.count == old(readerMessageCounter.count)
    {
      hide InitializationVector;
      ok := true;
      if state.Signing? {
        var p := state.response;
        state := AwaitingRequest;
        if |p.prepared| > 0 {
          var n := |p.prepared| - 1;
          p := p.(prepared := p.prepared[..n], signed := p.signed + [SignedDocument(p.prepared[n], signature)]);
        }
        if |p.prepared| == 0 {
          var bytes := codec.response(FinalizeResponse(p));
          if bytes.None? {
            return false;
          }
          var status: Option<SessionStatus> := None;
          var encrypted := deviceMessageCounter.Encrypt(skDevice, bytes.value, false, backendFails);
          if encrypted.None? {
            status := Some(SessionEncryptionError);
          }
          var message := SessionData(status, if status.Some? then None else encrypted);
          if !codec.message(message) {
            return false;
          }
          state := ReadyToRespond(message);
        } else {
          state := Signing(p);
        }
      }
    }

    function ResponseReady(): bool
      reads this
    {
      state.ReadyToRespond?
    }

    method RetrieveResponse() returns (r: Option<SessionData>)
      modifies this`state
      ensures old(state).ReadyToRespond? ==> r == Some(old(state).message) && state == AwaitingRequest
      ensures !old(state).ReadyToRespond? ==> r == None && state == old(state)
    {
      r := None;
      if ResponseReady() {
        r := Some(state.message);
        state := AwaitingRequest;
      }
    }
  }

  // ---------- Signing runs ----------

  /** Submitting one signature after another; a failed submission ends the run. */
  function SubmitAll(codec: Codec, key: Key, m: Machine, signatures: seq<seq<Byte>>, backendFails: bool)
    : (Machine, bool)
    decreases |signatures|
  {
    if |signatures| == 0 then (m, true)
    else
      var (next, ok) := Submit(codec, key, m, signatures[0], backendFails);
      if ok then SubmitAll(codec, key, next, signatures[1..], backendFails) else (next, false)
  }

  /** Documents from the last prepared one down, each with its signature. */
  function SignedReversed(prepared: seq<PreparedDocument>, signatures: seq<seq<Byte>>): (r: seq<SignedDocument>)
    requires |signatures| <= |prepared|
    ensures |r| == |signatures|
    ensures forall i :: 0 <= i < |r| ==> r[i] == SignedDocument(prepared[|prepared| - 1 - i], signatures[i])
  {
    seq(|signatures|, i requires 0 <= i < |signatures| => SignedDocument(prepared[|prepared| - 1 - i], signatures[i]))
  }

  /** A submission that does not finish the run attaches the signature to the
      document whose payload was on offer, and no document is lost. */
  lemma {:induction false} SignatureGoesToOffered(codec: Codec, key: Key, m: Machine, signature: seq<Byte>,
                                                  backendFails: bool)
    requires m.state.Signing? && |m.state.response.prepared| > 0
    ensures var p := m.state.response;
      var after := SubmitTo(p, signature);
      var signed := after.signed[|after.signed| - 1];
      && NextPayload(p) == Some((signed.document.id, signed.document.signaturePayload))
      && signed.signature == signature
      && p.prepared == after.prepared + [signed.document]
      && after.signed == p.signed + [signed]
      && |after.prepared| + |after.signed| == |p.prepared| + |p.signed|
      && (|p.prepared| > 1 ==> Submit(codec, key, m, signature, backendFails) == (m.(state := Signing(after)), true))
  {
  }

  /** Fewer than `max(k, 1)` submissions never leave the signing state, and sign
      the last prepared documents in turn. */
  lemma {:induction false} StillSigning(codec: Codec, key: Key, m: Machine, signatures: seq<seq<Byte>>,
                                        backendFails: bool)
    requires m.state.Signing?
    requires |signatures| == 0 || |signatures| < |m.state.response.prepared|
    ensures var p := m.state.response;
      SubmitAll(codec, key, m, signatures, backendFails)
      == (m.(state := Signing(p.(prepared := p.prepared[..|p.prepared| - |signatures|],
                                 signed := p.signed + SignedReversed(p.prepared, signatures)))), true)
    decreases |signatures|
  {
    var p := m.state.response;
    if |signatures| == 0 {
      assert p.signed + SignedReversed(p.prepared, []) == p.signed;
      assert p.prepared[..|p.prepared|] == p.prepared;
    } else {
      var next := SubmitTo(p, signatures[0]);
      StillSigning(codec, key, m.(state := Signing(next)), signatures[1..], backendFails);
      assert next.signed + SignedReversed(next.prepared, signatures[1..])
          == p.signed + SignedReversed(p.prepared, signatures);
      assert next.prepared[..|next.prepared| - |signatures[1..]|] == p.prepared[..|p.prepared| - |signatures|];
    }
  }

  lemma {:induction false} SubmitAllSplits(codec: Codec, key: Key, m: Machine, a: seq<seq<Byte>>, last: seq<Byte>,
                                           backendFails: bool)
    requires SubmitAll(codec, key, m, a, backendFails).1
    ensures SubmitAll(codec, key, m, a + [last], backendFails)
         == Submit(codec, key, SubmitAll(codec, key, m, a, backendFails).0, last, backendFails)
    decreases |a|
  {
    hide Submit;
    if |a| > 0 {
      var (next, ok) := Submit(codec, key, m, a[0], backendFails);
      SubmitAllSplits(codec, key, next, a[1..], last, backendFails);
      assert (a + [last])[1..] == a[1..] + [last];
    } else {
      assert (a + [last])[1..] == [];
    }
  }

  /** With nothing left to sign the response has documents exactly when some
      were signed, and then those, in the order they were signed. */
  lemma FinalDocuments(p: PreparedResponse)
    requires p.prepared == []
    ensures var response := FinalizeResponse(p);
      && response.documents == (if p.signed == [] then None else Some(p.signed))
      && response.documentErrors == p.documentErrors && response.status == p.status
  {
  }

  lemma {:induction false} LastSubmission(codec: Codec, key: Key, m: Machine, signature: seq<Byte>, backendFails: bool)
    requires m.state.Signing? && |m.state.response.prepared| <= 1
    ensures var p := SubmitTo(m.state.response, signature);
      var (end, ok) := Submit(codec, key, m, signature, backendFails);
      && |p.prepared| == 0
      && (ok <==> end.state.ReadyToRespond?)
      && (ok <==> codec.response(FinalizeResponse(p)).Some?
                  && codec.message(Answer(key, codec.response(FinalizeResponse(p)).value, m.count, backendFails)))
      && (ok ==> end.state.message == Answer(key, codec.response(FinalizeResponse(p)).value, m.count, backendFails))
      && (!ok ==> end.state == AwaitingRequest)
  {
    hide InitializationVector;
  }

  /** The message for the encoded response: sealed under the device's key and
      next counter, or the error status when the counter is used up or the
      backend fails. */
  function Answer(key: Key, bytes: seq<Byte>, count: U32, backendFails: bool): SessionData {
    if count == MAX_U32 || backendFails then SessionData(Some(SessionEncryptionError), None)
    else SessionData(None, Some(Sealed(key, InitializationVector(count + 1, false), bytes)))
  }

  /** From `k` prepared documents exactly `max(k, 1)` submissions end the signing
      state: with codecs that succeed the device is then ready, its documents are
      those signed before followed by the prepared ones in reverse, each with the
      signature submitted for it, or none at all if there are none; with a failing
      codec it waits for a request. */
  lemma {:induction false} RunEndsExactly(codec: Codec, key: Key, m: Machine, signatures: seq<seq<Byte>>,
                                          backendFails: bool)
    requires m.state.Signing?
    requires |signatures| == if |m.state.response.prepared| == 0 then 1 else |m.state.response.prepared|
    ensures var p := m.state.response;
      var signed := p.signed + SignedReversed(p.prepared, signatures[..|p.prepared|]);
      var documents := if signed == [] then None else Some(signed);
      var bytes := codec.response(Response(documents, p.documentErrors, p.status));
      var (end, ok) := SubmitAll(codec, key, m, signatures, backendFails);
      && SubmitAll(codec, key, m, signatures[..|signatures| - 1], backendFails).0.state.Signing?
      && (ok <==> end.state.ReadyToRespond?)
      && (ok <==> bytes.Some? && codec.message(Answer(key, bytes.value, m.count, backendFails)))
      && (ok ==> end.state.message == Answer(key, bytes.value, m.count, backendFails))
      && (!ok ==> end.state == AwaitingRequest)
  {
    hide Submit, Answer, FinalizeResponse;
    var p, n := m.state.response, |signatures| - 1;
    var front, last := signatures[..n], signatures[n];
    StillSigning(codec, key, m, front, backendFails);
    SubmitAllSplits(codec, key, m, front, last, backendFails);
    assert signatures == front + [last];
    var before := SubmitAll(codec, key, m, front, backendFails).0;
    LastSubmission(codec, key, before, last, backendFails);
    var k := |p.prepared|;
    if k > 0 {
      assert before.state.response.prepared == [p.prepared[0]];
      assert SignedReversed(p.prepared, front) + [SignedDocument(p.prepared[0], last)]
          == SignedReversed(p.prepared, signatures);
      assert signatures[..k] == signatures;
      assert SubmitTo(before.state.response, last).signed == p.signed + SignedReversed(p.prepared, signatures);
    } else {
      assert SignedReversed(p.prepared, front) == [] == SignedReversed(p.prepared, signatures[..0]);
    }
    FinalDocuments(SubmitTo(before.state.response, last));
  }

  /** A request that opens but is refused is answered, after one submission, by a
      response without documents that carries the status it was refused with. */
  lemma {:induction false} RefusalIsAnswered(codec: Codec, refuse: Refusal, m: Manager, c: Ciphertext,
                                             signature: seq<Byte>, backendFails: bool)
    requires m.channel.readerCount < MAX_U32 && c.Sealed? && refuse(c.plaintext).Some?
    requires c.key == m.channel.skReader && c.iv == InitializationVector(m.channel.readerCount + 1, true)
    ensures var received := Receive(refuse, m, Some(c), false);
      var answered := Sign(codec, received, signature, backendFails);
      var bytes := codec.response(Response(None, None, refuse(c.plaintext).value));
      && received.channel == m.channel.(readerCount := m.channel.readerCount + 1)
      && answered.state
         == if bytes.None? then AwaitingRequest
            else
              var answer := Answer(m.channel.skDevice, bytes.value, m.channel.deviceCount, backendFails);
              if codec.message(answer) then ReadyToRespond(answer) else AwaitingRequest
  {
    hide InitializationVector, Answer, Submit;
    var received := Receive(refuse, m, Some(c), false);
    LastSubmission(codec, m.channel.skDevice, Machine(received.state, m.channel.deviceCount), signature, backendFails);
  }

  /** A message carries data or an error status, never both, never neither. */
  lemma {:induction false} DataOrStatus(codec: Codec, key: Key, m: Machine, signature: seq<Byte>, backendFails: bool)
    requires !m.state.ReadyToRespond?
    requires Submit(codec, key, m, signature, backendFails).0.state.ReadyToRespond?
    ensures var end := Submit(codec, key, m, signature, backendFails).0;
      && (end.state.message.data.Some? <==> end.state.message.status.None?)
      && (end.state.message.status.Some? <==> m.count == MAX_U32 || backendFails)
      && (end.state.message.status.Some? ==>
            end.state.message.status.value == SessionEncryptionError && end.count == m.count)
      && (end.state.message.data.Some? ==> end.count == m.count + 1)
  {
    hide InitializationVector;
  }
}
