/** A reader and a device over a network that drops, replays, reorders and
    injects (src/definitions/session.rs, src/presentation/device.rs,
    src/presentation/reader.rs). */
module SessionNetwork {
  import opened Fips180
  import opened DigestTypes
  import opened KeyedHash
  import opened SessionCrypto
  import opened SessionChannel

  /** A ciphertext some side emitted, with the sender and its counter then. */
  datatype Message = Message(reader: bool, count: U32, ciphertext: Ciphertext)

  /** `wire` holds everything ever emitted; the rest is what each side sealed
      and what each side accepted, in order. */
  datatype System = System(
    reader: Endpoint, device: Endpoint, wire: seq<Message>,
    fromReader: seq<seq<Byte>>, fromDevice: seq<seq<Byte>>,
    toDevice: seq<seq<Byte>>, toReader: seq<seq<Byte>>)

  datatype Event =
    | ReaderSends(plaintext: seq<Byte>, fails: bool)
    | DeviceSends(plaintext: seq<Byte>, fails: bool)
    | DeviceReceives(c: Ciphertext, fails: bool)
    | ReaderReceives(c: Ciphertext, fails: bool)

  // ---------- Establishing ----------

  /** Diffie-Hellman, ideally: both sides compute the same secret. */
  datatype Agreement<!Scalar, !Point> = Agreement(public: Scalar -> Point, agree: (Scalar, Point) -> seq<Byte>)

  ghost predicate Agrees<Scalar(!new), Point(!new)>(dh: Agreement<Scalar, Point>) {
    && (forall a, b :: dh.agree(a, dh.public(b)) == dh.agree(b, dh.public(a)))
    && (forall a, p :: |dh.agree(a, p)| < MAX_KEYED)
  }

  /** The keys either side derives, with both counters at zero. */
  function Derive(sharedSecret: seq<Byte>, transcript: seq<Byte>): Endpoint
    requires |sharedSecret| < MAX_KEYED && |transcript| < TWO_61
  {
    Endpoint(SessionKey(sharedSecret, transcript, true), SessionKey(sharedSecret, transcript, false), 0, 0)
  }

  function Established(reader: Endpoint, device: Endpoint): System {
    System(reader, device, [], [], [], [], [])
  }

  predicate Initial(s: System) {
    && s.reader == s.device && s.reader.readerCount == 0 && s.reader.deviceCount == 0
    && s.wire == [] && s.fromReader == [] && s.fromDevice == [] && s.toDevice == [] && s.toReader == []
  }

  /** Each side with its own private scalar and the other's public point, on the
      same transcript, starts a session in the initial state. */
  lemma {:induction false} BothSidesDeriveTheSameKeys<Scalar(!new), Point(!new)>(
      dh: Agreement<Scalar, Point>, readerScalar: Scalar, deviceScalar: Scalar, transcript: seq<Byte>)
    requires Agrees(dh) && |transcript| < TWO_61
    ensures Initial(Established(Derive(dh.agree(readerScalar, dh.public(deviceScalar)), transcript),
                                Derive(dh.agree(deviceScalar, dh.public(readerScalar)), transcript)))
    ensures var secret := dh.agree(readerScalar, dh.public(deviceScalar));
      && Derive(secret, transcript).skReader == Hkdf(Sha256(transcript), secret, SK_READER, 32)
      && Derive(secret, transcript).skDevice == Hkdf(Sha256(transcript), secret, SK_DEVICE, 32)
  {
    hide Hkdf, Sha256;
    assert dh.agree(readerScalar, dh.public(deviceScalar)) == dh.agree(deviceScalar, dh.public(readerScalar));
  }

  // ---------- Steps ----------

  /** What the network can deliver: anything ever emitted, by either side and
      any number of times, or anything not sealed under a session key. */
  predicate Deliverable(s: System, c: Ciphertext) {
    || (exists i :: 0 <= i < |s.wire| && s.wire[i].ciphertext == c)
    || (c.Sealed? ==> c.key != s.reader.skReader && c.key != s.reader.skDevice)
  }

  predicate Enabled(s: System, e: Event) {
    match e
    case ReaderSends(_, _) => true
    case DeviceSends(_, _) => true
    case DeviceReceives(c, _) => Deliverable(s, c)
    case ReaderReceives(c, _) => Deliverable(s, c)
  }

  function Next(s: System, e: Event): System {
    match e
    case ReaderSends(plaintext, fails) =>
      var (c, reader) := s.reader.SealAsReader(plaintext, fails);
      if c.None? then s.(reader := reader)
      else s.(reader := reader, wire := s.wire + [Message(true, reader.readerCount, c.value)],
              fromReader := s.fromReader + [plaintext])
    case DeviceSends(plaintext, fails) =>
      var (c, device) := s.device.SealAsDevice(plaintext, fails);
      if c.None? then s.(device := device)
      else s.(device := device, wire := s.wire + [Message(false, device.deviceCount, c.value)],
              fromDevice := s.fromDevice + [plaintext])
    case DeviceReceives(c, fails) =>
      var (plaintext, device) := s.device.OpenAsDevice(c, fails);
      if plaintext.None? then s.(device := device)
      else s.(device := device, toDevice := s.toDevice + [plaintext.value])
    case ReaderReceives(c, fails) =>
      var (plaintext, reader) := s.reader.OpenAsReader(c, fails);
      if plaintext.None? then s.(reader := reader)
      else s.(reader := reader, toReader := s.toReader + [plaintext.value])
  }

  /** The state after a run, `None` if the run takes a step that is not enabled. */
  function Run(s: System, events: seq<Event>): Option<System>
    decreases |events|
  {
    if |events| == 0 then Some(s)
    else if Enabled(s, events[0]) then Run(Next(s, events[0]), events[1..])
    else None
  }

  // ---------- The invariant ----------

  function SentKey(s: System, reader: bool): Key {
    if reader then s.reader.skReader else s.reader.skDevice
  }

  function Sent(s: System, reader: bool): seq<seq<Byte>> {
    if reader then s.fromReader else s.fromDevice
  }

  /** The message a side emitted as its `n`-th. */
  function Genuine(s: System, reader: bool, n: U32): Message
    requires 1 <= n <= |Sent(s, reader)|
  {
    Message(reader, n, Sealed(SentKey(s, reader), InitializationVector(n, reader), Sent(s, reader)[n - 1]))
  }

  ghost predicate OnWire(s: System, m: Message) {
    exists i :: 0 <= i < |s.wire| && s.wire[i] == m
  }

  ghost predicate Inv(s: System) {
    && s.reader.skReader == s.device.skReader && s.reader.skDevice == s.device.skDevice
    && |s.fromReader| == s.reader.readerCount && |s.fromDevice| == s.device.deviceCount
    && s.device.readerCount <= |s.fromReader| && s.toDevice == s.fromReader[..s.device.readerCount]
    && s.reader.deviceCount <= |s.fromDevice| && s.toReader == s.fromDevice[..s.reader.deviceCount]
    && WireIsGenuine(s)
    && EachIsOnWire(s)
    && CountsDiffer(s)
  }

  ghost predicate WireIsGenuine(s: System) {
    forall i :: 0 <= i < |s.wire| ==>
      && 1 <= s.wire[i].count <= |Sent(s, s.wire[i].reader)|
      && s.wire[i] == Genuine(s, s.wire[i].reader, s.wire[i].count)
  }

  ghost predicate EachIsOnWire(s: System) {
    forall reader, n: U32 :: 1 <= n <= |Sent(s, reader)| ==> OnWire(s, Genuine(s, reader, n))
  }

  ghost predicate CountsDiffer(s: System) {
    forall i, j :: 0 <= i < j < |s.wire| && s.wire[i].reader == s.wire[j].reader ==> s.wire[i].count != s.wire[j].count
  }

  lemma {:induction false} EmittingKeepsWire(s: System, t: System, reader: bool, plaintext: seq<Byte>)
    requires WireIsGenuine(s) && EachIsOnWire(s) && CountsDiffer(s)
    requires |Sent(s, reader)| < MAX_U32
    requires forall q :: SentKey(t, q) == SentKey(s, q)
    requires Sent(t, reader) == Sent(s, reader) + [plaintext] && Sent(t, !reader) == Sent(s, !reader)
    requires t.wire == s.wire + [Genuine(t, reader, |Sent(t, reader)|)]
    ensures WireIsGenuine(t) && EachIsOnWire(t) && CountsDiffer(t)
  {
    hide InitializationVector, SentKey, Sent, OnWire, EachIsOnWire, Genuine;
    GenuineStays(s, t, reader, plaintext);
    NewestIsOnWire(s, t, reader, plaintext);
    assert forall i :: 0 <= i < |s.wire| ==> t.wire[i] == s.wire[i];
  }

  lemma GenuineStays(s: System, t: System, reader: bool, plaintext: seq<Byte>)
    requires |Sent(s, reader)| < MAX_U32
    requires forall q :: SentKey(t, q) == SentKey(s, q)
    requires Sent(t, reader) == Sent(s, reader) + [plaintext] && Sent(t, !reader) == Sent(s, !reader)
    ensures |Sent(t, reader)| == |Sent(s, reader)| + 1 && |Sent(t, !reader)| == |Sent(s, !reader)|
    ensures forall q, n: U32 :: 1 <= n <= |Sent(s, q)| ==> n <= |Sent(t, q)| && Genuine(t, q, n) == Genuine(s, q, n)
    ensures Genuine(t, reader, |Sent(t, reader)|).reader == reader
    ensures Genuine(t, reader, |Sent(t, reader)|).count == |Sent(t, reader)|
    ensures forall q, n: U32 :: 1 <= n <= |Sent(s, q)| ==> Genuine(s, q, n).reader == q && Genuine(s, q, n).count == n
  {
    hide InitializationVector, SentKey, Sent;
    forall q, n: U32 | 1 <= n <= |Sent(s, q)|
      ensures n <= |Sent(t, q)| && Genuine(t, q, n) == Genuine(s, q, n)
    {
      assert q == reader || q == !reader;
    }
  }

  lemma NewestIsOnWire(s: System, t: System, reader: bool, plaintext: seq<Byte>)
    requires EachIsOnWire(s) && |Sent(s, reader)| < MAX_U32
    requires forall q :: SentKey(t, q) == SentKey(s, q)
    requires Sent(t, reader) == Sent(s, reader) + [plaintext] && Sent(t, !reader) == Sent(s, !reader)
    requires t.wire == s.wire + [Genuine(t, reader, |Sent(t, reader)|)]
    ensures EachIsOnWire(t)
  {
    hide InitializationVector, SentKey, Sent, Genuine;
    GenuineStays(s, t, reader, plaintext);
    forall q, n: U32 | 1 <= n <= |Sent(t, q)|
      ensures OnWire(t, Genuine(t, q, n))
    {
      assert q == reader || q == !reader;
      if q == reader && n == |Sent(t, q)| {
        assert t.wire[|s.wire|] == Genuine(t, q, n);
      } else {
        assert OnWire(s, Genuine(s, q, n));
        var i :| 0 <= i < |s.wire| && s.wire[i] == Genuine(s, q, n);
        assert t.wire[i] == s.wire[i];
      }
    }
  }

  /** The only deliverable ciphertext that opens is the genuine next one. */
  lemma {:induction false} OnlyTheNextOpens(s: System, c: Ciphertext, reader: bool, count: U32)
    requires WireIsGenuine(s) && Deliverable(s, c) && count < MAX_U32
    requires Open(SentKey(s, reader), InitializationVector(count + 1, reader), c).Some?
    ensures count < |Sent(s, reader)| && c == Genuine(s, reader, count + 1).ciphertext
  {
    hide InitializationVector;
    var i :| 0 <= i < |s.wire| && s.wire[i].ciphertext == c;
    VectorsAreInjective(s.wire[i].count, s.wire[i].reader, count + 1, reader);
  }

  lemma SendingKeepsInv(s: System, e: Event)
    requires Inv(s) && (e.ReaderSends? || e.DeviceSends?)
    ensures Inv(Next(s, e))
  {
    hide InitializationVector, WireIsGenuine, EachIsOnWire, CountsDiffer;
    var t := Next(s, e);
    var count := if e.ReaderSends? then s.reader.readerCount else s.device.deviceCount;
    if count == MAX_U32 || e.fails {
      assert t == s;
    } else {
      EmittingKeepsWire(s, t, e.ReaderSends?, e.plaintext);
    }
  }

  lemma DeviceReceivingKeepsInv(s: System, e: Event)
    requires Inv(s) && Enabled(s, e) && e.DeviceReceives?
    ensures Inv(Next(s, e))
  {
    hide InitializationVector, WireIsGenuine, EachIsOnWire, CountsDiffer, Deliverable;
    var t := Next(s, e);
    if OpenStep(s.device.skReader, e.c, s.device.readerCount, true, e.fails).0.Some? {
      OnlyTheNextOpens(s, e.c, true, s.device.readerCount);
    } else {
      assert t == s;
    }
    SameWire(s, t);
  }

  lemma ReaderReceivingKeepsInv(s: System, e: Event)
    requires Inv(s) && Enabled(s, e) && e.ReaderReceives?
    ensures Inv(Next(s, e))
  {
    hide InitializationVector, WireIsGenuine, EachIsOnWire, CountsDiffer, Deliverable;
    var t := Next(s, e);
    if OpenStep(s.reader.skDevice, e.c, s.reader.deviceCount, false, e.fails).0.Some? {
      OnlyTheNextOpens(s, e.c, false, s.reader.deviceCount);
    } else {
      assert t == s;
    }
    SameWire(s, t);
  }

  lemma {:induction false} InvStep(s: System, e: Event)
    requires Inv(s) && Enabled(s, e)
    ensures Inv(Next(s, e))
  {
    hide Inv, Next, Enabled;
    match e
    case ReaderSends(_, _) => SendingKeepsInv(s, e);
    case DeviceSends(_, _) => SendingKeepsInv(s, e);
    case DeviceReceives(_, _) => DeviceReceivingKeepsInv(s, e);
    case ReaderReceives(_, _) => ReaderReceivingKeepsInv(s, e);
  }

  lemma SameWire(s: System, t: System)
    requires WireIsGenuine(s) && EachIsOnWire(s) && CountsDiffer(s)
    requires t.wire == s.wire && forall q :: SentKey(t, q) == SentKey(s, q) && Sent(t, q) == Sent(s, q)
    ensures WireIsGenuine(t) && EachIsOnWire(t) && CountsDiffer(t)
  {
    hide InitializationVector;
    assert forall q, n: U32 :: 1 <= n <= |Sent(t, q)| ==> Genuine(t, q, n) == Genuine(s, q, n);
  }

  lemma {:induction false} InvRun(s: System, events: seq<Event>)
    requires Inv(s) && Run(s, events).Some?
    ensures Inv(Run(s, events).value)
    decreases |events|
  {
    hide Inv, Next, Enabled;
    if |events| > 0 {
      InvStep(s, events[0]);
      InvRun(Next(s, events[0]), events[1..]);
    }
  }

  lemma InitialInv(s: System)
    requires Initial(s)
    ensures Inv(s)
  {
  }

  // ---------- What every run guarantees ----------

  /** In every run, what each side accepted is a prefix of what the other side
      sealed in that direction. */
  lemma {:induction false} AcceptedIsPrefix(s: System, events: seq<Event>)
    requires Initial(s) && Run(s, events).Some?
    ensures var t := Run(s, events).value;
      && t.toDevice <= t.fromReader
      && t.toReader <= t.fromDevice
  {
    hide Initial, Run, WireIsGenuine, EachIsOnWire, CountsDiffer;
    InitialInv(s);
    InvRun(s, events);
  }

  /** No two ciphertexts of a session, of either side, have the same
      initialization vector. */
  lemma {:induction false} VectorsNeverRepeat(s: System, events: seq<Event>)
    requires Initial(s) && Run(s, events).Some?
    ensures var wire := Run(s, events).value.wire;
      forall i, j :: 0 <= i < j < |wire| ==>
        wire[i].ciphertext.Sealed? && wire[j].ciphertext.Sealed? && wire[i].ciphertext.iv != wire[j].ciphertext.iv
  {
    hide Initial, Run, EachIsOnWire, InitializationVector;
    InitialInv(s);
    InvRun(s, events);
    var t := Run(s, events).value;
    forall i, j | 0 <= i < j < |t.wire|
      ensures t.wire[i].ciphertext.iv != t.wire[j].ciphertext.iv
    {
      VectorsAreInjective(t.wire[i].count, t.wire[i].reader, t.wire[j].count, t.wire[j].reader);
    }
  }

  /** A delivery the receiver rejects changes nothing at all. */
  lemma {:induction false} RejectionChangesNothing(s: System, e: Event)
    requires Inv(s) && Enabled(s, e)
    requires e.DeviceReceives? || e.ReaderReceives?
    requires Next(s, e).toDevice == s.toDevice && Next(s, e).toReader == s.toReader
    ensures Next(s, e) == s
  {
    hide InitializationVector, WireIsGenuine, EachIsOnWire, CountsDiffer, Deliverable;
    if e.DeviceReceives? {
      assert forall p: seq<Byte> :: |s.toDevice + [p]| == |s.toDevice| + 1;
    } else {
      assert forall p: seq<Byte> :: |s.toReader + [p]| == |s.toReader| + 1;
    }
  }

  /** In every reachable state the next ciphertext each side still lacks can be
      delivered and is then accepted, whatever was rejected before. */
  lemma {:induction false} GenuineNextIsAccepted(s: System, events: seq<Event>)
    requires Initial(s) && Run(s, events).Some?
    ensures var t := Run(s, events).value;
      && |t.fromReader| <= MAX_U32 && |t.fromDevice| <= MAX_U32
      && (|t.toDevice| < |t.fromReader| ==>
            var e := DeviceReceives(Genuine(t, true, |t.toDevice| + 1).ciphertext, false);
            Enabled(t, e) && Next(t, e).toDevice == t.toDevice + [t.fromReader[|t.toDevice|]])
      && (|t.toReader| < |t.fromDevice| ==>
            var e := ReaderReceives(Genuine(t, false, |t.toReader| + 1).ciphertext, false);
            Enabled(t, e) && Next(t, e).toReader == t.toReader + [t.fromDevice[|t.toReader|]])
  {
    hide Initial, Run, WireIsGenuine, CountsDiffer, InitializationVector;
    InitialInv(s);
    InvRun(s, events);
    var t := Run(s, events).value;
    if |t.toDevice| < |t.fromReader| {
      assert OnWire(t, Genuine(t, true, |t.toDevice| + 1));
    }
    if |t.toReader| < |t.fromDevice| {
      assert OnWire(t, Genuine(t, false, |t.toReader| + 1));
    }
  }

  /** Once a sender's counter is exhausted, nothing it does ever emits again and
      the counter stays put. */
  lemma {:induction false} ExhaustionIsForever(s: System, events: seq<Event>)
    requires Run(s, events).Some?
    ensures s.reader.readerCount == MAX_U32 ==>
              var t := Run(s, events).value; t.reader.readerCount == MAX_U32 && t.fromReader == s.fromReader
    ensures s.device.deviceCount == MAX_U32 ==>
              var t := Run(s, events).value; t.device.deviceCount == MAX_U32 && t.fromDevice == s.fromDevice
    decreases |events|
  {
    hide InitializationVector, Enabled;
    if |events| > 0 {
      ExhaustionIsForever(Next(s, events[0]), events[1..]);
    }
  }

  /** Emissions are counted: a side that has emitted `n` messages used the
      counters 1 to `n`, so at most 2^32 - 1 are ever emitted in a direction. */
  lemma {:induction false} EmissionsAreCounted(s: System, events: seq<Event>)
    requires Initial(s) && Run(s, events).Some?
    ensures var t := Run(s, events).value;
      && |t.fromReader| == t.reader.readerCount <= MAX_U32
      && |t.fromDevice| == t.device.deviceCount <= MAX_U32
  {
    hide Initial, Run, WireIsGenuine, EachIsOnWire, CountsDiffer;
    InitialInv(s);
    InvRun(s, events);
  }
}
