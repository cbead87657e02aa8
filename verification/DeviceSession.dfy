/** Whole runs of the device's session manager, and the network runs they are
    (src/presentation/device.rs). */
module DeviceSession {
  import opened Fips180
  import opened DigestTypes
  import opened DeviceResponse
  import opened SessionChannel
  import opened DeviceSigning
  import opened SessionNetwork

  // ---------- What happens to a manager ----------

  datatype ManagerEvent =
    | Receives(data: Option<Ciphertext>, backendFails: bool)
    | Prepares(response: PreparedResponse)
    | Submits(signature: seq<Byte>, backendFails: bool)
    | Retrieves

  function ManagerNext(codec: Codec, refuse: Refusal, m: Manager, e: ManagerEvent): Manager {
    match e
    case Receives(data, backendFails) => Receive(refuse, m, data, backendFails)
    case Prepares(response) => m.(state := Signing(response))
    case Submits(signature, backendFails) => Sign(codec, m, signature, backendFails)
    case Retrieves => if m.state.ReadyToRespond? then m.(state := AwaitingRequest) else m
  }

  function ManagerRun(codec: Codec, refuse: Refusal, m: Manager, events: seq<ManagerEvent>): Manager
    decreases |events|
  {
    if |events| == 0 then m else ManagerRun(codec, refuse, ManagerNext(codec, refuse, m, events[0]), events[1..])
  }

  // ---------- Which events keep the documents ----------

  /** The documents of a response under way: those still to sign, then the
      signed ones from the latest back. */
  function Documents(p: PreparedResponse): seq<PreparedDocument> {
    p.prepared + seq(|p.signed|, i requires 0 <= i < |p.signed| => p.signed[|p.signed| - 1 - i].document)
  }

  /** The data opens under the session key and is refused. */
  predicate IsRefused(refuse: Refusal, m: Manager, data: Option<Ciphertext>, backendFails: bool) {
    && data.Some?
    && var plaintext := m.channel.OpenAsDevice(data.value, backendFails).0;
    && plaintext.Some? && refuse(plaintext.value).Some?
  }

  predicate IsKept(before: DeviceSigning.State, after: DeviceSigning.State)
    requires before.Signing?
  {
    after.Signing? && Documents(after.response) == Documents(before.response)
  }

  lemma {:induction false} SigningKeepsDocuments(p: PreparedResponse, signature: seq<Byte>)
    ensures Documents(SubmitTo(p, signature)) == Documents(p)
  {
  }

  /** While signing, exactly these events keep every document, signed or not:
      anything received that is not refused (a refusal discards a response under
      way), a submission that is not the last, a retrieval, and preparing again
      only if it gives the same documents. */
  lemma {:induction false} DocumentsKeptExactly(codec: Codec, refuse: Refusal, m: Manager, e: ManagerEvent)
    requires m.state.Signing?
    ensures IsKept(m.state, ManagerNext(codec, refuse, m, e).state)
       <==> match e
            case Receives(data, backendFails) =>
              !IsRefused(refuse, m, data, backendFails) || Documents(m.state.response) == []
            case Prepares(response) => Documents(response) == Documents(m.state.response)
            case Submits(_, _) => |m.state.response.prepared| > 1
            case Retrieves => true
  {
    hide InitializationVector, Documents;
    match e
    case Submits(signature, _) => SigningKeepsDocuments(m.state.response, signature);
    case Receives(data, backendFails) =>
      if IsRefused(refuse, m, data, backendFails) {
        EmptyHasNone(refuse(m.channel.OpenAsDevice(data.value, backendFails).0.value).value);
      }
    case _ =>
  }

  /** A refused request discards the documents: one to sign, and the reader's
      first ciphertext, whose plaintext does not parse. */
  lemma {:induction false} RefusalDiscards(channel: Endpoint, codec: Codec, document: PreparedDocument,
                                           plaintext: seq<Byte>, status: Status)
    requires channel.readerCount == 0
    ensures var m := Manager(channel, Signing(PreparedResponse([document], [], None, OK)));
      var c := Sealed(channel.skReader, InitializationVector(1, true), plaintext);
      var after := ManagerNext(codec, _ => Some(status), m, Receives(Some(c), false));
      && Documents(m.state.response) == [document]
      && after.state == Signing(EmptyResponse(status)) && Documents(after.state.response) == []
  {
    hide InitializationVector;
    EmptyHasNone(status);
    assert Documents(PreparedResponse([document], [], None, OK)) == [document] + [];
  }

  lemma EmptyHasNone(status: Status)
    ensures Documents(EmptyResponse(status)) == []
  {
  }

  // ---------- The message that waits ----------

  /** A waiting message carries data or an error status, and its data is sealed
      under the device's key and its current counter. */
  predicate MessageIsSound(m: Manager) {
    m.state.ReadyToRespond? ==>
      var message := m.state.message;
      && (message.data.Some? <==> message.status.None?)
      && (message.status.Some? ==> message.status.value == SessionEncryptionError)
      && (message.data.Some? ==>
            && message.data.value.Sealed?
            && message.data.value.key == m.channel.skDevice
            && message.data.value.iv == InitializationVector(m.channel.deviceCount, false))
  }

  lemma {:induction false} MessagesAreSound(codec: Codec, refuse: Refusal, m: Manager, events: seq<ManagerEvent>)
    requires MessageIsSound(m)
    ensures MessageIsSound(ManagerRun(codec, refuse, m, events))
    decreases |events|
  {
    hide InitializationVector;
    if |events| > 0 {
      MessagesAreSound(codec, refuse, ManagerNext(codec, refuse, m, events[0]), events[1..]);
    }
  }

  // ---------- Manager runs are network runs ----------

  /** The network step a manager event is, if it touches the channel. */
  function NetworkEvent(codec: Codec, m: Manager, e: ManagerEvent): Option<Event> {
    match e
    case Receives(data, backendFails) => if data.None? then None else Some(DeviceReceives(data.value, backendFails))
    case Submits(signature, backendFails) =>
      if !m.state.Signing? then None
      else
        var p := SubmitTo(m.state.response, signature);
        if |p.prepared| != 0 then None
        else
          var bytes := codec.response(FinalizeResponse(p));
          if bytes.None? then None else Some(DeviceSends(bytes.value, backendFails))
    case _ => None
  }

  /** A device behind its manager, a reader, and the network between them. */
  datatype Session = Session(network: System, manager: Manager)

  datatype SessionEvent = AtDevice(event: ManagerEvent) | AtReader(step: Event)

  predicate SessionEnabled(codec: Codec, s: Session, e: SessionEvent) {
    match e
    case AtDevice(event) =>
      var step := NetworkEvent(codec, s.manager, event);
      step.Some? ==> Enabled(s.network, step.value)
    case AtReader(step) => (step.ReaderSends? || step.ReaderReceives?) && Enabled(s.network, step)
  }

  function SessionNext(codec: Codec, refuse: Refusal, s: Session, e: SessionEvent): Session {
    match e
    case AtDevice(event) =>
      var step := NetworkEvent(codec, s.manager, event);
      Session(if step.None? then s.network else Next(s.network, step.value),
              ManagerNext(codec, refuse, s.manager, event))
    case AtReader(step) => Session(Next(s.network, step), s.manager)
  }

  function SessionRun(codec: Codec, refuse: Refusal, s: Session, events: seq<SessionEvent>): Option<Session>
    decreases |events|
  {
    if |events| == 0 then Some(s)
    else if SessionEnabled(codec, s, events[0])
    then SessionRun(codec, refuse, SessionNext(codec, refuse, s, events[0]), events[1..])
    else None
  }

  /** The manager's counters are the device's on the network, and the data of a
      waiting message is on the wire. */
  ghost predicate Refines(s: Session) {
    && Inv(s.network)
    && s.manager.channel == s.network.device
    && (s.manager.state.ReadyToRespond? && s.manager.state.message.data.Some? ==>
          OnWire(s.network, Message(false, s.network.device.deviceCount, s.manager.state.message.data.value)))
  }

  lemma {:induction false} StaysOnWire(s: System, e: Event, m: Message)
    requires OnWire(s, m)
    ensures OnWire(Next(s, e), m)
  {
    hide InitializationVector;
    var i :| 0 <= i < |s.wire| && s.wire[i] == m;
    assert Next(s, e).wire[i] == m;
  }

  lemma {:induction false} StepRefines(codec: Codec, refuse: Refusal, s: Session, e: SessionEvent)
    requires Refines(s) && SessionEnabled(codec, s, e)
    ensures Refines(SessionNext(codec, refuse, s, e))
  {
    hide InitializationVector, Inv, Deliverable, OnWire;
    var t := SessionNext(codec, refuse, s, e);
    var message := s.manager.state;
    match e
    case AtReader(step) =>
      SessionNetwork.InvStep(s.network, step);
      if message.ReadyToRespond? && message.message.data.Some? {
        StaysOnWire(s.network, step, Message(false, s.network.device.deviceCount, message.message.data.value));
      }
    case AtDevice(event) =>
      var step := NetworkEvent(codec, s.manager, event);
      if step.Some? {
        SessionNetwork.InvStep(s.network, step.value);
        if step.value.DeviceSends? {
          NewIsOnWire(s.network, step.value);
        } else if message.ReadyToRespond? && message.message.data.Some? {
          StaysOnWire(s.network, step.value, Message(false, s.network.device.deviceCount, message.message.data.value));
        }
      }
  }

  lemma NewIsOnWire(s: System, e: Event)
    requires e.DeviceSends?
    ensures var (c, device) := s.device.SealAsDevice(e.plaintext, e.fails);
      c.Some? ==> OnWire(Next(s, e), Message(false, device.deviceCount, c.value))
  {
    hide InitializationVector;
    var (c, device) := s.device.SealAsDevice(e.plaintext, e.fails);
    if c.Some? {
      assert Next(s, e).wire[|s.wire|] == Message(false, device.deviceCount, c.value);
    }
  }

  lemma {:induction false} RunRefines(codec: Codec, refuse: Refusal, s: Session, events: seq<SessionEvent>)
    requires Refines(s) && SessionRun(codec, refuse, s, events).Some?
    ensures Refines(SessionRun(codec, refuse, s, events).value)
    decreases |events|
  {
    hide Refines, SessionNext, SessionEnabled;
    if |events| > 0 {
      StepRefines(codec, refuse, s, events[0]);
      RunRefines(codec, refuse, SessionNext(codec, refuse, s, events[0]), events[1..]);
    }
  }

  /** Every run of the real manager against a reader over the network is a
      network run: its counters are those of the device there, a waiting
      message's data was emitted, and what either side accepted is a prefix of
      what the other sealed. */
  lemma {:induction false} ManagerRefinesNetwork(codec: Codec, refuse: Refusal, s: System, events: seq<SessionEvent>)
    requires Initial(s)
    requires SessionRun(codec, refuse, Session(s, Manager(s.device, AwaitingRequest)), events).Some?
    ensures var t := SessionRun(codec, refuse, Session(s, Manager(s.device, AwaitingRequest)), events).value;
      && t.manager.channel == t.network.device
      && (t.manager.state.ReadyToRespond? && t.manager.state.message.data.Some? ==>
            OnWire(t.network, Message(false, t.network.device.deviceCount, t.manager.state.message.data.value)))
      && t.network.toDevice <= t.network.fromReader
      && t.network.toReader <= t.network.fromDevice
  {
    hide SessionRun, Initial, WireIsGenuine, EachIsOnWire, CountsDiffer, OnWire;
    InitialInv(s);
    RunRefines(codec, refuse, Session(s, Manager(s.device, AwaitingRequest)), events);
  }
}
