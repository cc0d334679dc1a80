/** Two endpoints that talk only through the add-then-write and add-then-check wrappers. */
module Exchange {
  import opened Words
  import opened Checksum
  import opened Pipe
  import opened Loss

  /** Post: write a message's checksum and send it. Fetch: take the next message off the pipe and validate it.
      Resume: snapshot an idle end and continue on another calculator. Select: set one end's version. */
  datatype Exchange =
    | Post(side: Side, length: nat, room: nat)
    | Fetch(side: Side)
    | Resume(side: Side, spare: Calc)
    | Select(side: Side, version: uint32)

  function Steps(p: Pipe, x: Exchange): seq<Step> {
    match x
    case Post(s, length, room) => [Local(s, AddBuffer(length)), Send(s, room, length)]
    case Fetch(s) =>
      var incoming := From(p, Other(s)).packets;
      if incoming == [] then [] else [Local(s, AddBuffer(incoming[0].length)), Check(s, 0, false)]
    case Resume(s, spare) => [Migrate(s, spare)]
    case Select(s, v) => [Local(s, SetVersion(v))]
  }

  /** The pipe after one exchange. */
  function Does(p: Pipe, x: Exchange): Pipe {
    Run(p, Steps(p, x))
  }

  /** The validation an exchange makes, if any. */
  function Judges(p: Pipe, x: Exchange): seq<Event> {
    Trace(p, Steps(p, x))
  }

  function Talk(p: Pipe, xs: seq<Exchange>): Pipe
    decreases xs
  {
    if xs == [] then p else Talk(Does(p, xs[0]), xs[1..])
  }

  function Verdicts(p: Pipe, xs: seq<Exchange>): seq<Event>
    decreases xs
  {
    if xs == [] then [] else Judges(p, xs[0]) + Verdicts(Does(p, xs[0]), xs[1..])
  }

  // ---- what one exchange does ----

  lemma PostOutcome(p: Pipe, s: Side, length: nat, room: nat)
    requires Sound(p)
    ensures var p', a := Does(p, Post(s, length, room)), Next(End(p, s), AddBuffer(length));
      && Sound(p') && Judges(p, Post(s, length, room)) == []
      && p' == if room < a.checksumSize then WithEnd(p, s, a)
               else WithFrom(WithEnd(p, s, Next(a, WriteChecksum(room))), s,
                             Push(From(p, s), ChecksumOf(a.version, a.total, a.numWrite), a, length))
  {
    hide Encode, Coherent, Ordered;
    var a, b := Local(s, AddBuffer(length)), Send(s, room, length);
    RunTwo(p, a, b);
    StepKeepsSound(p, a);
    StepKeepsSound(Do(p, a), b);
  }

  /** No packet is lost or repeated. */
  ghost predicate Lossless(ch: Channel) {
    Lost(ch) == 0 && AheadBy(ch, -1, 0)
  }

  lemma FetchOutcome(p: Pipe, s: Side)
    requires Sound(p) && Lossless(From(p, Other(s))) && From(p, Other(s)).packets != []
    ensures var ch, q := From(p, Other(s)), From(p, Other(s)).packets[0];
      var p', a := Does(p, Fetch(s)), Next(End(p, s), AddBuffer(q.length));
      && Sound(p')
      && p' == WithFrom(WithEnd(p, s, Next(a, Validate(q.bytes))), Other(s), Pop(ch, 0, false))
      && |Judges(p, Fetch(s))| == 1
      && var e := Judges(p, Fetch(s))[0];
         e.packet == q && e.receiver == a
         && (e.ok <==> q.version == a.version && (a.version == 1 ==> q.total == a.total))
  {
    hide Encode, Coherent, Ordered, AheadBy, Wrap, Answer, Run, Trace;
    var q := From(p, Other(s)).packets[0];
    var a, b := Local(s, AddBuffer(q.length)), Check(s, 0, false);
    RunTwo(p, a, b);
    StepKeepsSound(p, a);
    StepKeepsSound(Do(p, a), b);
    HeadVerdict(Do(p, a), s);
  }

  lemma NothingToFetch(p: Pipe, s: Side)
    requires From(p, Other(s)).packets == []
    ensures Does(p, Fetch(s)) == p && Judges(p, Fetch(s)) == []
  {}

  /** In front of a lossless channel the verdict is by version and total. */
  lemma HeadVerdict(p: Pipe, s: Side)
    requires Sound(p) && Lossless(From(p, Other(s))) && From(p, Other(s)).packets != []
    ensures var q, c, v := From(p, Other(s)).packets[0], End(p, s), Verdict(p, Check(s, 0, false));
      && |v| == 1 && v[0].packet == q && v[0].receiver == c
      && (v[0].ok <==> q.version == c.version && (c.version == 1 ==> q.total == c.total))
  {
    var step, ch := Check(s, 0, false), From(p, Other(s));
    VerdictIsExact(p, step);
    assert ch.packets[0].number == ch.checked;
    hide Encode, Coherent, Ordered, Wrap, Answer;
    assert Verdict(p, step)[0] in Verdict(p, step);
  }

  lemma ResumeOutcome(p: Pipe, s: Side, spare: Calc)
    requires Sound(p)
    ensures Does(p, Resume(s, spare)) == p && Judges(p, Resume(s, spare)) == []
  {
    hide Encode;
    RunOne(p, Migrate(s, spare));
    MigrateChangesNothing(p, s, spare);
  }

  lemma SelectOutcome(p: Pipe, s: Side, v: uint32)
    requires Sound(p)
    ensures Sound(Does(p, Select(s, v))) && Judges(p, Select(s, v)) == []
    ensures Does(p, Select(s, v)) == WithEnd(p, s, Next(End(p, s), SetVersion(v)))
  {
    hide Encode;
    RunOne(p, Local(s, SetVersion(v)));
    StepKeepsSound(p, Local(s, SetVersion(v)));
  }

  // ---- with room ----

  /** Every packet written in version 1 was written for exactly its message. */
  ghost predicate Honest(ch: Channel) {
    Lossless(ch) && forall q :: q in ch.packets && q.version == 1 ==> q.total == Wrap(q.length)
  }

  /** Both ends idle, and the traffic in flight as the wrappers make it. */
  ghost predicate Flowing(p: Pipe) {
    Sound(p) && !p.guest.encoding && !p.host.encoding && Honest(p.fromGuest) && Honest(p.fromHost)
  }

  /** A post finds enough room for the checksum of its end's version. */
  ghost predicate HasRoom(p: Pipe, x: Exchange) {
    x.Post? ==> x.room >= End(p, x.side).checksumSize
  }

  ghost predicate AllHaveRoom(p: Pipe, xs: seq<Exchange>)
    decreases xs
  {
    xs == [] || (HasRoom(p, xs[0]) && AllHaveRoom(Does(p, xs[0]), xs[1..]))
  }

  lemma PushKeepsLossless(ch: Channel, bytes: seq<byte>, c: Calc, length: nat)
    requires Ordered(ch) && Lossless(ch)
    ensures Lossless(Push(ch, bytes, c, length))
  {
    PushKeepsOrder(ch, bytes, c, length, -1, 0);
  }

  lemma PopKeepsLossless(ch: Channel)
    requires Ordered(ch) && Lossless(ch) && ch.packets != []
    ensures Lossless(Pop(ch, 0, false))
  {
    PopKeepsOrder(ch, false, -1, 0);
  }

  lemma HonestHead(ch: Channel)
    requires Honest(ch) && ch.packets != []
    ensures Lossless(ch) && (ch.packets[0].version == 1 ==> ch.packets[0].total == Wrap(ch.packets[0].length))
  {
    assert ch.packets[0] in ch.packets;
  }

  lemma PushKeepsHonest(ch: Channel, bytes: seq<byte>, c: Calc, length: nat)
    requires Ordered(ch) && Honest(ch) && (c.version == 1 ==> c.total == Wrap(length))
    ensures Honest(Push(ch, bytes, c, length))
  {
    PushKeepsLossless(ch, bytes, c, length);
    hide Lossless, Wrap;
  }

  lemma PopKeepsHonest(ch: Channel)
    requires Ordered(ch) && Honest(ch) && ch.packets != []
    ensures Honest(Pop(ch, 0, false))
  {
    PopKeepsLossless(ch);
    hide Lossless, Wrap;
  }

  lemma PostFlows(p: Pipe, s: Side, length: nat, room: nat)
    requires Flowing(p) && HasRoom(p, Post(s, length, room))
    ensures Flowing(Does(p, Post(s, length, room)))
  {
    hide Encode, ChecksumOf, Wrap, Lossless, Does, Judges, Sound;
    SoundChannels(p);
    PostOutcome(p, s, length, room);
    var a := Next(End(p, s), AddBuffer(length));
    PushKeepsHonest(From(p, s), ChecksumOf(a.version, a.total, a.numWrite), a, length);
    hide Honest;
  }

  lemma FetchFlows(p: Pipe, s: Side)
    requires Flowing(p)
    ensures Flowing(Does(p, Fetch(s)))
    ensures forall e :: e in Judges(p, Fetch(s)) ==> (e.ok <==> e.packet.version == e.receiver.version)
    ensures |Judges(p, Fetch(s))| == if From(p, Other(s)).packets == [] then 0 else 1
  {
    hide Encode, Wrap, Lossless, Does, Judges, Sound, Honest;
    var ch := From(p, Other(s));
    if ch.packets != [] {
      SoundChannels(p);
      HonestHead(ch);
      FetchOutcome(p, s);
      PopKeepsHonest(ch);
    } else {
      NothingToFetch(p, s);
    }
  }

  /** Whatever versions the two ends select, and whenever, every message is accepted that was written in the version
      its receiver is in when it fetches it, and no other. */
  lemma {:induction false} VersionsDecide(p: Pipe, xs: seq<Exchange>)
    requires Flowing(p) && AllHaveRoom(p, xs)
    ensures Flowing(Talk(p, xs))
    ensures forall e :: e in Verdicts(p, xs) ==> (e.ok <==> e.packet.version == e.receiver.version)
    decreases xs
  {
    if xs != [] {
      ExchangeFlows(p, xs[0]);
      VersionsDecide(Does(p, xs[0]), xs[1..]);
    }
  }

  lemma ExchangeFlows(p: Pipe, x: Exchange)
    requires Flowing(p) && HasRoom(p, x)
    ensures Flowing(Does(p, x))
    ensures forall e :: e in Judges(p, x) ==> (e.ok <==> e.packet.version == e.receiver.version)
  {
    match x
    case Post(s, length, room) =>
      PostFlows(p, s, length, room);
      PostOutcome(p, s, length, room);
    case Fetch(s) => FetchFlows(p, s);
    case Resume(s, spare) => ResumeOutcome(p, s, spare);
    case Select(s, v) => SelectOutcome(p, s, v);
  }

  /** All packets in flight were written in version v. */
  ghost predicate AllOf(ch: Channel, v: uint32) {
    forall q :: q in ch.packets ==> q.version == v
  }

  /** One version v at both ends and in everything in flight. */
  ghost predicate Settled(p: Pipe, v: uint32) {
    && Flowing(p) && p.guest.version == v && p.host.version == v
    && AllOf(p.fromGuest, v) && AllOf(p.fromHost, v)
  }

  /** Two idle ends of one version whose counters match open a settled pipe. */
  lemma OpenedIsSettled(guest: Calc, host: Calc)
    requires Valid(guest) && !guest.encoding && Valid(host) && !host.encoding
    requires guest.version == host.version
    requires guest.numWrite == host.numRead && host.numWrite == guest.numRead
    ensures Settled(Opened(guest, host), guest.version)
  {
    OpenedIsCoherent(guest, host);
  }

  /** Two new calculators, on which setVersion is never called, open a pipe settled at version 0. */
  lemma NewEndsAreSettled()
    ensures Settled(Opened(FRESH, FRESH), 0)
  {
    OpenedIsSettled(FRESH, FRESH);
  }

  /** In a settled pipe the k-th message in flight carries the checksum its receiver will expect when it has
      validated k more, counters wrapping at 2^32. */
  lemma InFlightChecksums(p: Pipe, v: uint32, s: Side, k: nat)
    requires Settled(p, v) && k < |From(p, s).packets|
    ensures var q := From(p, s).packets[k];
      q.bytes == ChecksumOf(v, Wrap(q.length), Wrap(End(p, Other(s)).numRead + k))
  {
    hide Encode;
    var ch := From(p, s);
    var q := ch.packets[k];
    assert q in ch.packets && Genuine(ch.start, ch.sent, q);
    assert q.number == ch.checked + k;
    WrapAbsorbs(ch.start + ch.checked, k);
  }

  lemma PostSettles(p: Pipe, v: uint32, s: Side, length: nat, room: nat)
    requires Settled(p, v) && room >= ByteSize(v)
    ensures Settled(Does(p, Post(s, length, room)), v)
    ensures Judges(p, Post(s, length, room)) == []
  {
    PostOutcome(p, s, length, room);
    PostFlows(p, s, length, room);
    var a, ch := Next(End(p, s), AddBuffer(length)), From(p, s);
    assert AllOf(Push(ch, ChecksumOf(a.version, a.total, a.numWrite), a, length), v) && AllOf(From(p, Other(s)), v);
    hide Encode, ChecksumOf, Flowing, Does, Judges, Wrap, Push;
  }

  lemma PopKeepsAllOf(ch: Channel, v: uint32)
    requires AllOf(ch, v) && ch.packets != []
    ensures ch.packets[0].version == v && AllOf(Pop(ch, 0, false), v)
  {
    assert ch.packets[0] in ch.packets;
  }

  lemma FlowingIsSound(p: Pipe, s: Side)
    requires Flowing(p)
    ensures Sound(p) && Lossless(From(p, s))
  {}

  lemma FetchSettles(p: Pipe, v: uint32, s: Side)
    requires Settled(p, v)
    ensures Settled(Does(p, Fetch(s)), v)
    ensures forall e :: e in Judges(p, Fetch(s)) ==> e.ok
  {
    hide Encode, Wrap, Flowing, Does, Judges, Pop, AllOf;
    var ch := From(p, Other(s));
    FetchFlows(p, s);
    if ch.packets != [] {
      PopKeepsAllOf(ch, v);
      FlowingIsSound(p, Other(s));
      FetchOutcome(p, s);
    } else {
      NothingToFetch(p, s);
    }
  }

  lemma ExchangeSettles(p: Pipe, v: uint32, x: Exchange)
    requires Settled(p, v) && (x.Post? ==> x.room >= ByteSize(v)) && !x.Select?
    ensures Settled(Does(p, x), v)
    ensures forall e :: e in Judges(p, x) ==> e.ok
  {
    match x
    case Post(s, length, room) => PostSettles(p, v, s, length, room);
    case Fetch(s) => FetchSettles(p, v, s);
    case Resume(s, spare) => ResumeOutcome(p, s, spare);
  }

  /** Full-duplex safety: two idle ends of one version that use only the wrappers, with room for the checksums,
      over channels that keep the order and lose nothing, accept every message on every run, however the two
      directions interleave and wherever either end is snapshotted and resumed. */
  lemma {:induction false} EveryMessageIsAccepted(p: Pipe, v: uint32, xs: seq<Exchange>)
    requires Settled(p, v)
    requires forall x :: x in xs ==> (x.Post? ==> x.room >= ByteSize(v)) && !x.Select?
    ensures Settled(Talk(p, xs), v)
    ensures forall e :: e in Verdicts(p, xs) ==> e.ok
    decreases xs
  {
    if xs != [] {
      ExchangeSettles(p, v, xs[0]);
      EveryMessageIsAccepted(Does(p, xs[0]), v, xs[1..]);
    }
  }

  /** When both ends of a settled pipe change version, the pipe is settled at the new one if and only if nothing
      written in the old one is in flight in either direction. */
  lemma VersionChange(p: Pipe, v: uint32, w: uint32)
    requires Settled(p, v) && w <= MAX_VERSION && w != v
    ensures var p' := Talk(p, [Select(Guest, w), Select(Host, w)]);
      && Flowing(p') && p'.guest.version == w && p'.host.version == w
      && p'.fromGuest == p.fromGuest && p'.fromHost == p.fromHost
      && (Settled(p', w) <==> p.fromGuest.packets == [] && p.fromHost.packets == [])
  {
    var a, b := Select(Guest, w), Select(Host, w);
    var p1 := Does(p, a);
    TalkTwo(p, a, b);
    SelectOutcome(p, Guest, w);
    SelectOutcome(p1, Host, w);
    ExchangeFlows(p, a);
    ExchangeFlows(p1, b);
    assert !p.guest.encoding && !p.host.encoding;
    OneVersion(p.fromGuest, v, w);
    OneVersion(p.fromHost, v, w);
    hide Does, Flowing, Talk, AllOf;
  }

  lemma OneVersion(ch: Channel, v: uint32, w: uint32)
    requires AllOf(ch, v) && v != w
    ensures AllOf(ch, w) <==> ch.packets == []
  {
    assert ch.packets != [] ==> ch.packets[0] in ch.packets;
  }

  lemma TalkTwo(p: Pipe, a: Exchange, b: Exchange)
    ensures Talk(p, [a, b]) == Does(Does(p, a), b)
    ensures Verdicts(p, [a, b]) == Judges(p, a) + Judges(Does(p, a), b)
  {
    assert [a, b][1..] == [b];
    assert Talk(Does(p, a), [b]) == Does(Does(p, a), b);
    assert Verdicts(Does(p, a), [b]) == Judges(Does(p, a), b) + [];
  }
}
