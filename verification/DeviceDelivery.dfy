/** Device messages from sealing to the reader. `retrieve_response` hands out a
    sealed message once; until then it only waits in the manager's state, which
    other calls overwrite (src/presentation/device.rs). */
module DeviceDelivery {
  import opened Fips180
  import opened DigestTypes
  import opened SessionChannel
  import opened DeviceSigning
  import opened SessionNetwork
  import opened DeviceSession

  /** A session with what its device has handed out so far. */
  datatype Exchange = Exchange(session: Session, handed: seq<SessionData>)

  predicate HandsOut(s: Session, e: SessionEvent) {
    e == AtDevice(Retrieves) && s.manager.state.ReadyToRespond?
  }

  function ExchangeNext(codec: Codec, refuse: Refusal, x: Exchange, e: SessionEvent): Exchange {
    Exchange(SessionNext(codec, refuse, x.session, e),
             if HandsOut(x.session, e) then x.handed + [x.session.manager.state.message] else x.handed)
  }

  /** What can be delivered: what the reader emitted, what the device handed out,
      or anything not sealed under a session key; a sealed message that only
      waits cannot. */
  predicate CanArrive(x: Exchange, c: Ciphertext) {
    var s := x.session.network;
    || (exists i :: 0 <= i < |s.wire| && s.wire[i].reader && s.wire[i].ciphertext == c)
    || (exists i :: 0 <= i < |x.handed| && x.handed[i].data == Some(c))
    || (c.Sealed? ==> c.key != s.reader.skReader && c.key != s.reader.skDevice)
  }

  predicate ExchangeEnabled(x: Exchange, e: SessionEvent) {
    match e
    case AtDevice(Receives(data, _)) => data.Some? ==> CanArrive(x, data.value)
    case AtDevice(_) => true
    case AtReader(ReaderSends(_, _)) => true
    case AtReader(ReaderReceives(c, _)) => CanArrive(x, c)
    case AtReader(_) => false
  }

  function ExchangeRun(codec: Codec, refuse: Refusal, x: Exchange, events: seq<SessionEvent>): Option<Exchange>
    decreases |events|
  {
    if |events| == 0 then Some(x)
    else if ExchangeEnabled(x, events[0])
        then ExchangeRun(codec, refuse, ExchangeNext(codec, refuse, x, events[0]), events[1..])
    else None
  }

  function Start(s: System): Exchange {
    Exchange(Session(s, Manager(s.device, AwaitingRequest)), [])
  }

  // ---------- Numbers of device messages ----------

  /** The message carries the device's `n`-th ciphertext. */
  predicate HasNumber(s: System, message: SessionData, n: U32) {
    1 <= n <= |s.fromDevice| && message.data == Some(Genuine(s, false, n).ciphertext)
  }

  ghost predicate IsHanded(x: Exchange, n: U32) {
    exists i :: 0 <= i < |x.handed| && HasNumber(x.session.network, x.handed[i], n)
  }

  /** A sealed message waits to be retrieved. */
  predicate Waits(m: Manager) {
    m.state.ReadyToRespond? && m.state.message.data.Some?
  }

  /** The device's `n`-th message was sealed, but never handed out, and is not
      waiting any more. */
  ghost predicate Lost(x: Exchange, n: U32) {
    && 1 <= n <= |x.session.network.fromDevice|
    && !IsHanded(x, n)
    && !(Waits(x.session.manager) && n == x.session.manager.channel.deviceCount)
  }

  ghost predicate Traced(x: Exchange) {
    && Refines(x.session)
    && HandedAreGenuine(x)
    && AcceptedAreHanded(x)
    && (Waits(x.session.manager) ==> !IsHanded(x, x.session.manager.channel.deviceCount))
  }

  ghost predicate HandedAreGenuine(x: Exchange) {
    forall i :: 0 <= i < |x.handed| && x.handed[i].data.Some? ==>
      exists n: U32 :: HasNumber(x.session.network, x.handed[i], n)
  }

  ghost predicate AcceptedAreHanded(x: Exchange) {
    forall n: U32 :: 1 <= n <= |x.session.network.toReader| ==> IsHanded(x, n)
  }

  lemma {:induction false} NumbersAreUnique(s: System, message: SessionData, m: U32, n: U32)
    requires HasNumber(s, message, m) && HasNumber(s, message, n)
    ensures m == n
  {
    hide InitializationVector;
    VectorsAreInjective(m, false, n, false);
  }

  /** A waiting message carries the latest number. */
  lemma {:induction false} WaitingHasNumber(s: Session)
    requires Refines(s) && Waits(s.manager)
    ensures 1 <= s.manager.channel.deviceCount == |s.network.fromDevice|
    ensures HasNumber(s.network, s.manager.state.message, s.manager.channel.deviceCount)
  {
    hide InitializationVector, EachIsOnWire, CountsDiffer;
    var n := s.network.device.deviceCount;
    var i :| 0 <= i < |s.network.wire|
             && s.network.wire[i] == Message(false, n, s.manager.state.message.data.value);
    assert s.network.wire[i] == Genuine(s.network, false, n);
  }

  // ---------- Steps ----------

  lemma {:induction false} SentOnlyGrows(s: System, e: Event)
    ensures var t := Next(s, e);
      && s.fromDevice <= t.fromDevice && s.toReader <= t.toReader
      && |t.fromDevice| <= |s.fromDevice| + 1 && |t.toReader| <= |s.toReader| + 1
      && (|t.toReader| > |s.toReader| ==> e.ReaderReceives?)
      && (forall n: U32, message: SessionData :: n <= |s.fromDevice| ==>
          (HasNumber(t, message, n) <==> HasNumber(s, message, n)))
  {
    hide InitializationVector;
    var t := Next(s, e);
    forall n: U32, message: SessionData | n <= |s.fromDevice|
      ensures HasNumber(t, message, n) <==> HasNumber(s, message, n)
    {
      if n > 0 {
        assert t.fromDevice[n - 1] == s.fromDevice[n - 1];
      }
    }
  }

  lemma SessionOnlyGrows(codec: Codec, refuse: Refusal, s: Session, e: SessionEvent)
    ensures var (old_, new_) := (s.network, SessionNext(codec, refuse, s, e).network);
      && old_.fromDevice <= new_.fromDevice && old_.toReader <= new_.toReader
      && |new_.fromDevice| <= |old_.fromDevice| + 1 && |new_.toReader| <= |old_.toReader| + 1
      && (|new_.toReader| > |old_.toReader| ==> e.AtReader? && e.step.ReaderReceives?)
      && (forall n: U32, message: SessionData :: n <= |old_.fromDevice| ==>
            (HasNumber(new_, message, n) <==> HasNumber(old_, message, n)))
  {
    hide Next, HasNumber, ManagerNext;
    match e
    case AtReader(step) => SentOnlyGrows(s.network, step);
    case AtDevice(event) =>
      var step := NetworkEvent(codec, s.manager, event);
      if step.Some? {
        SentOnlyGrows(s.network, step.value);
      }
  }

  /** What can arrive is deliverable on the network. */
  lemma {:induction false} ArrivesOnNetwork(x: Exchange, c: Ciphertext)
    requires Traced(x) && CanArrive(x, c)
    ensures Deliverable(x.session.network, c)
  {
    hide InitializationVector, WireIsGenuine, CountsDiffer, AcceptedAreHanded;
    var s := x.session.network;
    if i :| 0 <= i < |x.handed| && x.handed[i].data == Some(c) {
      var n: U32 :| HasNumber(s, x.handed[i], n);
      assert n <= |Sent(s, false)|;
      assert OnWire(s, Genuine(s, false, n));
    }
  }

  lemma {:induction false} EnabledInSession(codec: Codec, x: Exchange, e: SessionEvent)
    requires Traced(x) && ExchangeEnabled(x, e)
    ensures SessionEnabled(codec, x.session, e)
  {
    hide Traced, CanArrive, Deliverable;
    match e
    case AtDevice(Receives(data, _)) =>
      if data.Some? {
        ArrivesOnNetwork(x, data.value);
      }
    case AtReader(ReaderReceives(c, _)) => ArrivesOnNetwork(x, c);
    case _ =>
  }

  /** The reader accepts only the next number, and only when it was handed out. */
  lemma {:induction false} AcceptedIsHanded(x: Exchange, c: Ciphertext, fails: bool)
    requires Traced(x) && CanArrive(x, c)
    requires x.session.network.reader.OpenAsReader(c, fails).0.Some?
    ensures var n := |x.session.network.toReader| + 1;
      n <= |x.session.network.fromDevice| && n <= MAX_U32 && IsHanded(x, n)
  {
    hide InitializationVector, Deliverable, EachIsOnWire, CountsDiffer, AcceptedAreHanded, HandedAreGenuine;
    var s := x.session.network;
    ArrivesOnNetwork(x, c);
    var n := s.reader.deviceCount + 1;
    OnlyTheNextOpens(s, c, false, s.reader.deviceCount);
    assert c == Genuine(s, false, n).ciphertext;
    if i :| 0 <= i < |s.wire| && s.wire[i].reader && s.wire[i].ciphertext == c {
      VectorsAreInjective(s.wire[i].count, true, n, false);
    }
    var i :| 0 <= i < |x.handed| && x.handed[i].data == Some(c);
    assert HasNumber(s, x.handed[i], n);
  }

  /** A step hands out the waiting message or nothing. */
  lemma {:induction false} HandedStep(codec: Codec, refuse: Refusal, x: Exchange, e: SessionEvent, n: U32)
    requires Traced(x)
    ensures IsHanded(ExchangeNext(codec, refuse, x, e), n)
       <==> || IsHanded(x, n)
            || (HandsOut(x.session, e) && Waits(x.session.manager) && n == x.session.manager.channel.deviceCount)
  {
    hide HasNumber, SessionNext, Refines, AcceptedAreHanded;
    var y := ExchangeNext(codec, refuse, x, e);
    var s, t, waiting := x.session.network, y.session.network, x.session.manager.state;
    SessionOnlyGrows(codec, refuse, x.session, e);
    NumbersAreSent(s);
    NumbersAreSent(t);
    if Waits(x.session.manager) {
      WaitingHasNumber(x.session);
    }
    if IsHanded(x, n) {
      var i :| 0 <= i < |x.handed| && HasNumber(s, x.handed[i], n);
      assert y.handed[i] == x.handed[i];
    }
    if HandsOut(x.session, e) && Waits(x.session.manager) && n == x.session.manager.channel.deviceCount {
      assert y.handed[|x.handed|] == waiting.message;
    }
    if i :| 0 <= i < |y.handed| && HasNumber(t, y.handed[i], n) {
      if i < |x.handed| {
        var m: U32 :| HasNumber(s, x.handed[i], m);
        NumbersAreUnique(t, x.handed[i], m, n);
      } else {
        NumbersAreUnique(t, waiting.message, x.session.manager.channel.deviceCount, n);
      }
    }
  }

  lemma NumbersAreSent(s: System)
    ensures forall message, n: U32 :: HasNumber(s, message, n) ==> 1 <= n <= |s.fromDevice| && message.data.Some?
  {
    hide InitializationVector;
  }

  /** The number of the message a step discards before it is handed out: a
      waiting one, if a response is prepared again or a request is refused; the
      one just sealed, if its session message cannot be encoded. */
  function Discarded(codec: Codec, refuse: Refusal, m: Manager, e: SessionEvent): Option<nat> {
    match e
    case AtDevice(Prepares(_)) => if Waits(m) then Some(m.channel.deviceCount) else None
    case AtDevice(Receives(data, backendFails)) =>
      if Waits(m) && IsRefused(refuse, m, data, backendFails) then Some(m.channel.deviceCount) else None
    case AtDevice(Submits(signature, backendFails)) =>
      if !m.state.Signing? || |SubmitTo(m.state.response, signature).prepared| != 0 then None
      else
        var bytes := codec.response(FinalizeResponse(SubmitTo(m.state.response, signature)));
        if bytes.None? then None
        else
          var c := m.channel.SealAsDevice(bytes.value, backendFails).0;
          if c.Some? && !codec.message(SessionData(None, c)) then Some(m.channel.deviceCount + 1) else None
    case _ => None
  }

  /** A waiting message keeps waiting until it is handed out or discarded, and
      nothing is sealed meanwhile; a sealed one waits unless it is discarded. */
  lemma {:induction false} WaitingStep(codec: Codec, refuse: Refusal, s: Session, e: SessionEvent)
    requires s.manager.channel == s.network.device && s.network.device.deviceCount == |s.network.fromDevice|
    requires e.AtReader? ==> e.step.ReaderSends? || e.step.ReaderReceives?
    ensures var t := SessionNext(codec, refuse, s, e);
      var grew := |t.network.fromDevice| > |s.network.fromDevice|;
      var discarded := Discarded(codec, refuse, s.manager, e);
      && (Waits(s.manager) ==> !grew && (Waits(t.manager) <==> !HandsOut(s, e) && discarded.None?))
      && (!Waits(s.manager) ==> (Waits(t.manager) <==> grew && discarded.None?))
      && (discarded.Some? ==>
            && discarded.value == |t.network.fromDevice|
            && (Waits(s.manager) || grew) && !HandsOut(s, e))
  {
    hide InitializationVector, Open;
    match e
    case AtReader(_) =>
    case AtDevice(Receives(data, backendFails)) =>
    case AtDevice(Prepares(_)) =>
    case AtDevice(Submits(_, _)) =>
    case AtDevice(Retrieves) =>
  }

  /** Exactly what each step does to the lost messages. */
  lemma {:induction false} LostStep(codec: Codec, refuse: Refusal, x: Exchange, e: SessionEvent, n: U32)
    requires Traced(x) && ExchangeEnabled(x, e)
    ensures Lost(ExchangeNext(codec, refuse, x, e), n)
       <==> Lost(x, n) || Discarded(codec, refuse, x.session.manager, e) == Some(n)
  {
    hide HandedAreGenuine, AcceptedAreHanded, IsHanded, SessionNext, Discarded, Refines, CanArrive, Waits;
    var y := ExchangeNext(codec, refuse, x, e);
    HandedStep(codec, refuse, x, e, n);
    SessionOnlyGrows(codec, refuse, x.session, e);
    EnabledInSession(codec, x, e);
    StepRefines(codec, refuse, x.session, e);
    RefinesMeans(x.session);
    RefinesMeans(y.session);
    WaitingStep(codec, refuse, x.session, e);
    if IsHanded(x, n) {
      HandedAreSent(x, n);
    }
    if Waits(x.session.manager) {
      WaitingHasNumber(x.session);
    }
  }

  lemma HandedAreSent(x: Exchange, n: U32)
    requires IsHanded(x, n)
    ensures 1 <= n <= |x.session.network.fromDevice|
  {
    NumbersAreSent(x.session.network);
  }

  lemma {:induction false} TracedStep(codec: Codec, refuse: Refusal, x: Exchange, e: SessionEvent)
    requires Traced(x) && ExchangeEnabled(x, e)
    ensures Traced(ExchangeNext(codec, refuse, x, e))
  {
    hide HasNumber, IsHanded, Refines, SessionNext, CanArrive, Discarded;
    var y := ExchangeNext(codec, refuse, x, e);
    EnabledInSession(codec, x, e);
    StepRefines(codec, refuse, x.session, e);
    HandedStaysGenuine(codec, refuse, x, e);
    AcceptedStayHanded(codec, refuse, x, e);
    RefinesMeans(x.session);
    RefinesMeans(y.session);
    SessionOnlyGrows(codec, refuse, x.session, e);
    WaitingStep(codec, refuse, x.session, e);
    if Waits(y.session.manager) {
      HandedStep(codec, refuse, x, e, y.session.manager.channel.deviceCount);
      if IsHanded(x, y.session.manager.channel.deviceCount) {
        HandedAreSent(x, y.session.manager.channel.deviceCount);
      }
    }
  }

  lemma RefinesMeans(s: Session)
    requires Refines(s)
    ensures s.manager.channel == s.network.device && s.network.device.deviceCount == |s.network.fromDevice|
    ensures |s.network.toReader| == s.network.reader.deviceCount <= |s.network.fromDevice|
  {
    hide WireIsGenuine, EachIsOnWire, CountsDiffer, OnWire;
  }

  lemma {:induction false} HandedStaysGenuine(codec: Codec, refuse: Refusal, x: Exchange, e: SessionEvent)
    requires Traced(x)
    ensures HandedAreGenuine(ExchangeNext(codec, refuse, x, e))
  {
    hide HasNumber, SessionNext, Refines, AcceptedAreHanded;
    var y := ExchangeNext(codec, refuse, x, e);
    var s, t := x.session.network, y.session.network;
    SessionOnlyGrows(codec, refuse, x.session, e);
    NumbersAreSent(s);
    forall i | 0 <= i < |y.handed| && y.handed[i].data.Some?
      ensures exists n: U32 :: HasNumber(t, y.handed[i], n)
    {
      if i < |x.handed| {
        var n: U32 :| HasNumber(s, x.handed[i], n);
        assert HasNumber(t, y.handed[i], n);
      } else {
        WaitingHasNumber(x.session);
        assert HasNumber(t, y.handed[i], x.session.manager.channel.deviceCount);
      }
    }
  }

  lemma {:induction false} AcceptedStayHanded(codec: Codec, refuse: Refusal, x: Exchange, e: SessionEvent)
    requires Traced(x) && ExchangeEnabled(x, e)
    ensures AcceptedAreHanded(ExchangeNext(codec, refuse, x, e))
  {
    hide HasNumber, IsHanded, HandedAreGenuine, CanArrive, ManagerNext, InitializationVector;
    var y := ExchangeNext(codec, refuse, x, e);
    SessionOnlyGrows(codec, refuse, x.session, e);
    RefinesMeans(x.session);
    forall n: U32 | 1 <= n <= |y.session.network.toReader|
      ensures IsHanded(y, n)
    {
      if n == |x.session.network.toReader| + 1 {
        AcceptedIsHanded(x, e.step.c, e.step.fails);
      }
      HandedStep(codec, refuse, x, e, n);
    }
  }

  /** Exchanges are session runs, so all that holds of those holds here, and the
      bookkeeping of numbers holds throughout. */
  lemma {:induction false} TracedRun(codec: Codec, refuse: Refusal, x: Exchange, events: seq<SessionEvent>)
    requires Traced(x) && ExchangeRun(codec, refuse, x, events).Some?
    ensures Traced(ExchangeRun(codec, refuse, x, events).value)
    ensures SessionRun(codec, refuse, x.session, events)
         == Some(ExchangeRun(codec, refuse, x, events).value.session)
    decreases |events|
  {
    hide Traced, SessionEnabled, ExchangeEnabled, SessionNext, HandsOut;
    if |events| > 0 {
      EnabledInSession(codec, x, events[0]);
      TracedStep(codec, refuse, x, events[0]);
      TracedRun(codec, refuse, ExchangeNext(codec, refuse, x, events[0]), events[1..]);
    }
  }

  lemma {:induction false} StartIsTraced(s: System)
    requires Initial(s)
    ensures Traced(Start(s))
  {
    hide WireIsGenuine, EachIsOnWire, CountsDiffer, OnWire;
    InitialInv(s);
  }

  // ---------- What a discarded message costs ----------

  /** A lost message stays lost, and the reader never accepts it or any later
      one. */
  lemma {:induction false} LostIsForever(codec: Codec, refuse: Refusal, x: Exchange, events: seq<SessionEvent>, n: U32)
    requires Traced(x) && Lost(x, n) && ExchangeRun(codec, refuse, x, events).Some?
    ensures var y := ExchangeRun(codec, refuse, x, events).value;
      Lost(y, n) && |y.session.network.toReader| < n
    decreases |events|
  {
    hide Traced, Lost, ExchangeEnabled, ExchangeNext, Discarded;
    if |events| > 0 {
      TracedStep(codec, refuse, x, events[0]);
      LostStep(codec, refuse, x, events[0], n);
      LostIsForever(codec, refuse, ExchangeNext(codec, refuse, x, events[0]), events[1..], n);
    } else {
      LostIsNotAccepted(x, n);
    }
  }

  lemma LostIsNotAccepted(x: Exchange, n: U32)
    requires Traced(x) && Lost(x, n)
    ensures |x.session.network.toReader| < n
  {
    hide IsHanded, Refines, HandedAreGenuine;
    RefinesMeans(x.session);
  }

  /** The events that bring the reader the next message: retrieving it first, if
      it still waits. */
  function DeliverNext(x: Exchange, n: U32): seq<SessionEvent>
    requires 1 <= n <= |x.session.network.fromDevice|
  {
    var arrival := AtReader(ReaderReceives(Genuine(x.session.network, false, n).ciphertext, false));
    if Waits(x.session.manager) && n == x.session.manager.channel.deviceCount
    then [AtDevice(Retrieves), arrival] else [arrival]
  }

  lemma {:induction false} HandedIsAccepted(codec: Codec, refuse: Refusal, x: Exchange, n: U32)
    requires Traced(x) && IsHanded(x, n) && n == |x.session.network.toReader| + 1
    requires 1 <= n <= |x.session.network.fromDevice|
    ensures var e := AtReader(ReaderReceives(Genuine(x.session.network, false, n).ciphertext, false));
      && ExchangeEnabled(x, e)
      && ExchangeNext(codec, refuse, x, e).session.network.toReader
         == x.session.network.toReader + [x.session.network.fromDevice[n - 1]]
  {
    hide WireIsGenuine, EachIsOnWire, CountsDiffer, InitializationVector, HandedAreGenuine, AcceptedAreHanded;
    var i :| 0 <= i < |x.handed| && HasNumber(x.session.network, x.handed[i], n);
  }

  lemma {:induction false} RunOfOne(codec: Codec, refuse: Refusal, x: Exchange, e: SessionEvent)
    requires ExchangeEnabled(x, e)
    ensures ExchangeRun(codec, refuse, x, [e]) == Some(ExchangeNext(codec, refuse, x, e))
  {
    hide ExchangeNext, ExchangeEnabled;
    assert [e][1..] == [];
  }

  lemma {:induction false} NextIsDelivered(codec: Codec, refuse: Refusal, x: Exchange)
    requires Traced(x) && |x.session.network.toReader| < |x.session.network.fromDevice| <= MAX_U32
    requires !Lost(x, |x.session.network.toReader| + 1)
    ensures var run := ExchangeRun(codec, refuse, x, DeliverNext(x, |x.session.network.toReader| + 1));
      && run.Some?
      && Traced(run.value)
      && (forall k :: Lost(run.value, k) <==> Lost(x, k))
      && run.value.session.network.fromDevice == x.session.network.fromDevice
      && run.value.session.network.toReader
         == x.session.network.toReader + [x.session.network.fromDevice[|x.session.network.toReader|]]
  {
    hide Traced, IsHanded, Lost, InitializationVector, ExchangeEnabled, HandedAreGenuine;
    var n := |x.session.network.toReader| + 1;
    var events := DeliverNext(x, n);
    NotLostMeans(x, n);
    if |events| == 2 {
      var y := ExchangeNext(codec, refuse, x, events[0]);
      RetrievingIsEnabled(x);
      HandedStep(codec, refuse, x, events[0], n);
      QuietStep(codec, refuse, x, events[0]);
      HandedIsAccepted(codec, refuse, y, n);
      QuietStep(codec, refuse, y, events[1]);
      assert events[1..] == [events[1]];
      RunOfOne(codec, refuse, y, events[1]);
    } else {
      HandedIsAccepted(codec, refuse, x, n);
      QuietStep(codec, refuse, x, events[0]);
      RunOfOne(codec, refuse, x, events[0]);
    }
  }

  lemma NotLostMeans(x: Exchange, n: U32)
    requires !Lost(x, n) && 1 <= n <= |x.session.network.fromDevice|
    ensures IsHanded(x, n) || |DeliverNext(x, n)| == 2
  {
  }

  lemma RetrievingIsEnabled(x: Exchange)
    ensures ExchangeEnabled(x, AtDevice(Retrieves))
  {
  }

  lemma QuietStep(codec: Codec, refuse: Refusal, x: Exchange, e: SessionEvent)
    requires Traced(x) && ExchangeEnabled(x, e) && (e.AtReader? || e.event.Retrieves?)
    ensures Traced(ExchangeNext(codec, refuse, x, e))
    ensures forall k :: Lost(ExchangeNext(codec, refuse, x, e), k) <==> Lost(x, k)
  {
    hide Traced, Lost, ExchangeEnabled, ExchangeNext;
    TracedStep(codec, refuse, x, e);
    forall k: U32
      ensures Lost(ExchangeNext(codec, refuse, x, e), k) <==> Lost(x, k)
    {
      LostStep(codec, refuse, x, e, k);
    }
  }

  lemma {:induction false} RunsJoin(codec: Codec, refuse: Refusal, x: Exchange, a: seq<SessionEvent>,
                                    b: seq<SessionEvent>)
    requires ExchangeRun(codec, refuse, x, a).Some?
    ensures ExchangeRun(codec, refuse, x, a + b)
        == ExchangeRun(codec, refuse, ExchangeRun(codec, refuse, x, a).value, b)
    decreases |a|
  {
    hide ExchangeNext, ExchangeEnabled;
    if |a| == 0 {
      assert a + b == b;
    } else {
      RunsJoin(codec, refuse, ExchangeNext(codec, refuse, x, a[0]), a[1..], b);
      assert (a + b)[1..] == a[1..] + b;
    }
  }

  /** With nothing lost up to `n`, the reader can be brought to accept all of the
      device's first `n` messages. */
  lemma {:induction false} BacklogIsDelivered(codec: Codec, refuse: Refusal, x: Exchange, n: U32)
    returns (events: seq<SessionEvent>)
    requires Traced(x) && n <= |x.session.network.fromDevice| <= MAX_U32
    requires forall k: U32 :: 1 <= k <= n ==> !Lost(x, k)
    ensures var run := ExchangeRun(codec, refuse, x, events);
      run.Some? && n <= |run.value.session.network.toReader|
    decreases n - |x.session.network.toReader|
  {
    hide Traced, Lost, DeliverNext, ExchangeNext, ExchangeEnabled;
    events := [];
    if |x.session.network.toReader| < n {
      NextIsDelivered(codec, refuse, x);
      var first := DeliverNext(x, |x.session.network.toReader| + 1);
      var y := ExchangeRun(codec, refuse, x, first).value;
      var others := BacklogIsDelivered(codec, refuse, y, n);
      RunsJoin(codec, refuse, x, first, others);
      events := first + others;
    }
  }

  /** The numbers of the messages discarded along a run. */
  function DiscardedIn(codec: Codec, refuse: Refusal, x: Exchange, events: seq<SessionEvent>): set<nat>
    decreases |events|
  {
    if |events| == 0 then {}
    else
      var discarded := Discarded(codec, refuse, x.session.manager, events[0]);
      (if discarded.Some? then {discarded.value} else {})
      + DiscardedIn(codec, refuse, ExchangeNext(codec, refuse, x, events[0]), events[1..])
  }

  lemma {:induction false} LostAreDiscarded(codec: Codec, refuse: Refusal, x: Exchange, events: seq<SessionEvent>,
                                            n: U32)
    requires Traced(x) && ExchangeRun(codec, refuse, x, events).Some?
    ensures Lost(ExchangeRun(codec, refuse, x, events).value, n)
       <==> Lost(x, n) || n in DiscardedIn(codec, refuse, x, events)
    decreases |events|
  {
    hide Traced, Lost, ExchangeEnabled, ExchangeNext, Discarded;
    if |events| > 0 {
      TracedStep(codec, refuse, x, events[0]);
      LostStep(codec, refuse, x, events[0], n);
      LostAreDiscarded(codec, refuse, ExchangeNext(codec, refuse, x, events[0]), events[1..], n);
    }
  }

  predicate Reaches(codec: Codec, refuse: Refusal, x: Exchange, events: seq<SessionEvent>, n: nat) {
    var run := ExchangeRun(codec, refuse, x, events);
    run.Some? && n <= |run.value.session.network.toReader|
  }

  predicate NoneUpTo(n: nat, discarded: set<nat>) {
    forall k <- discarded :: n < k
  }

  /** After any run from the start of a session, the reader can still be brought
      to accept the device's first `n` messages if and only if the run discarded
      none of them. */
  lemma {:induction false} DiscardsDecideDelivery(codec: Codec, refuse: Refusal, s: System, events: seq<SessionEvent>,
                                                  n: U32)
    requires Initial(s) && ExchangeRun(codec, refuse, Start(s), events).Some?
    requires n <= |ExchangeRun(codec, refuse, Start(s), events).value.session.network.fromDevice|
    ensures var x := ExchangeRun(codec, refuse, Start(s), events).value;
      (exists more :: Reaches(codec, refuse, x, more, n))
      <==> NoneUpTo(n, DiscardedIn(codec, refuse, Start(s), events))
  {
    hide Traced, Lost, ExchangeRun, DiscardedIn, Initial;
    var x := ExchangeRun(codec, refuse, Start(s), events).value;
    var discarded := DiscardedIn(codec, refuse, Start(s), events);
    StartIsTraced(s);
    TracedRun(codec, refuse, Start(s), events);
    TracedIsBounded(x);
    forall k: U32
      ensures Lost(x, k) <==> k in discarded
    {
      LostAreDiscarded(codec, refuse, Start(s), events, k);
      NothingLostYet(s, k);
    }
    if NoneUpTo(n, discarded) {
      var more := BacklogIsDelivered(codec, refuse, x, n);
      assert Reaches(codec, refuse, x, more, n);
    } else {
      var k: U32 :| k in discarded && k <= n;
      assert Lost(x, k);
      forall more
        ensures !Reaches(codec, refuse, x, more, n)
      {
        if Reaches(codec, refuse, x, more, n) {
          LostIsForever(codec, refuse, x, more, k);
        }
      }
    }
  }

  lemma TracedIsBounded(x: Exchange)
    requires Traced(x)
    ensures |x.session.network.fromDevice| <= MAX_U32
  {
    hide AcceptedAreHanded, HandedAreGenuine, IsHanded;
    RefinesMeans(x.session);
  }

  lemma NothingLostYet(s: System, k: U32)
    requires Initial(s)
    ensures !Lost(Start(s), k)
  {
  }

  const NOTHING: PreparedResponse := EmptyResponse(OK)
  const PREPARE_TWICE: seq<SessionEvent> :=
    [AtDevice(Prepares(NOTHING)), AtDevice(Submits([], false)), AtDevice(Prepares(NOTHING))]

  /** Preparing again before the first response is retrieved: from then on the
      reader accepts nothing the device sends. */
  lemma {:induction false} PreparingAgainDiscards(codec: Codec, refuse: Refusal, s: System, more: seq<SessionEvent>)
    requires Initial(s)
    requires codec.response(FinalizeResponse(NOTHING)).Some? && forall message :: codec.message(message)
    ensures var x := ExchangeRun(codec, refuse, Start(s), PREPARE_TWICE);
      && x.Some? && x.value.session.network.fromDevice == [codec.response(FinalizeResponse(NOTHING)).value]
      && 1 in DiscardedIn(codec, refuse, Start(s), PREPARE_TWICE)
      && var end := ExchangeRun(codec, refuse, x.value, more);
         end.Some? ==> end.value.session.network.toReader == []
  {
    hide InitializationVector, Lost, Traced;
    var x0 := Start(s);
    var x1 := ExchangeNext(codec, refuse, x0, PREPARE_TWICE[0]);
    var x2 := ExchangeNext(codec, refuse, x1, PREPARE_TWICE[1]);
    var x3 := ExchangeNext(codec, refuse, x2, PREPARE_TWICE[2]);
    assert PREPARE_TWICE[1..][0] == PREPARE_TWICE[1] && PREPARE_TWICE[1..][1..] == [PREPARE_TWICE[2]];
    assert Waits(x2.session.manager);
    assert Discarded(codec, refuse, x2.session.manager, PREPARE_TWICE[2]) == Some(1);
    assert 1 in DiscardedIn(codec, refuse, x2, [PREPARE_TWICE[2]]);
    assert 1 in DiscardedIn(codec, refuse, x1, PREPARE_TWICE[1..]);
    RunOfOne(codec, refuse, x2, PREPARE_TWICE[2]);
    assert ExchangeRun(codec, refuse, x0, PREPARE_TWICE) == Some(x3);
    StartIsTraced(s);
    TracedRun(codec, refuse, x0, PREPARE_TWICE);
    LostAreDiscarded(codec, refuse, x0, PREPARE_TWICE, 1);
    if ExchangeRun(codec, refuse, x3, more).Some? {
      LostIsForever(codec, refuse, x3, more, 1);
    }
  }
}
