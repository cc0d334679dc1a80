/** A pipe: two endpoints, each with one calculator for both directions, and a channel each way.

    Channels may lose, repeat and reorder packets. Either end may at any moment add buffers, abandon them,
    change its version, or be snapshotted and continue as another calculator object. A packet carries, besides
    its checksum bytes, a record of what its sender held when it wrote them; the calculators never see it. */
module Pipe {
  import opened Words
  import opened Checksum

  datatype Side = Guest | Host

  function Other(s: Side): Side {
    if s == Guest then Host else Guest
  }

  /** `length` is the length of the message the packet carries, `total` what its sender had added up. */
  datatype Packet = Packet(bytes: seq<byte>, number: nat, version: uint32, total: uint32, length: nat)

  /** One direction: the counter value both ends started from, the packets in flight, how many were sent and
      how many validations the receiving end has made. */
  datatype Channel = Channel(start: uint32, packets: seq<Packet>, sent: nat, checked: nat)

  datatype Pipe = Pipe(guest: Calc, host: Calc, fromGuest: Channel, fromHost: Channel)

  function End(p: Pipe, s: Side): Calc {
    if s == Guest then p.guest else p.host
  }

  /** The channel whose sender is s. */
  function From(p: Pipe, s: Side): Channel {
    if s == Guest then p.fromGuest else p.fromHost
  }

  function WithEnd(p: Pipe, s: Side, c: Calc): Pipe {
    if s == Guest then p.(guest := c) else p.(host := c)
  }

  function WithFrom(p: Pipe, s: Side, ch: Channel): Pipe {
    if s == Guest then p.(fromGuest := ch) else p.(fromHost := ch)
  }

  datatype Step =
    | Local(side: Side, call: Call)              // a call that involves no channel
    | Send(side: Side, room: nat, length: nat)   // write a checksum, and send the message if that succeeds
    | Check(side: Side, k: nat, keep: bool)      // validate the k-th packet arriving at side, perhaps not the last copy
    | Drop(side: Side, k: nat)                   // lose the k-th packet sent by side
    | Migrate(side: Side, spare: Calc)           // save an idle end and load it into another idle calculator

  function Without(q: seq<Packet>, k: nat): (r: seq<Packet>)
    requires k < |q|
    ensures |r| == |q| - 1
    ensures forall i :: 0 <= i < |r| ==> r[i] == if i < k then q[i] else q[i + 1]
    ensures forall packet :: packet in r ==> packet in q
  {
    q[..k] + q[k + 1..]
  }

  function Push(ch: Channel, bytes: seq<byte>, c: Calc, length: nat): Channel {
    ch.(packets := ch.packets + [Packet(bytes, ch.sent, c.version, c.total, length)], sent := ch.sent + 1)
  }

  function Pop(ch: Channel, k: nat, keep: bool): Channel
    requires k < |ch.packets|
  {
    ch.(packets := if keep then ch.packets else Without(ch.packets, k), checked := ch.checked + 1)
  }

  /** The pipe after one step; a step that is not possible changes nothing. */
  function Do(p: Pipe, step: Step): Pipe {
    match step
    case Local(s, call) =>
      if call.WriteChecksum? || call.Validate? then p else WithEnd(p, s, Next(End(p, s), call))
    case Send(s, room, length) =>
      var c := End(p, s);
      var reply := Answer(c, WriteChecksum(room));
      if reply.Emitted?
      then WithFrom(WithEnd(p, s, Next(c, WriteChecksum(room))), s, Push(From(p, s), reply.bytes, c, length))
      else p
    case Check(s, k, keep) =>
      var ch := From(p, Other(s));
      if k >= |ch.packets| then p
      else WithFrom(WithEnd(p, s, Next(End(p, s), Validate(ch.packets[k].bytes))), Other(s), Pop(ch, k, keep))
    case Drop(s, k) =>
      var ch := From(p, s);
      if k >= |ch.packets| then p else WithFrom(p, s, ch.(packets := Without(ch.packets, k)))
    case Migrate(s, spare) =>
      var c := End(p, s);
      if c.encoding || spare.encoding || !Valid(spare) then p else WithEnd(p, s, Loaded(spare, Saved(c)))
  }

  /** One validation: the packet, how many validations came before it, the receiver just before, the verdict. */
  datatype Event = Event(sender: Side, packet: Packet, checkedAs: nat, receiver: Calc, ok: bool)

  function Verdict(p: Pipe, step: Step): seq<Event> {
    if step.Check? && step.k < |From(p, Other(step.side)).packets| then
      var ch := From(p, Other(step.side));
      var q, c := ch.packets[step.k], End(p, step.side);
      [Event(Other(step.side), q, ch.checked, c, Answer(c, Validate(q.bytes)) == Flag(true))]
    else []
  }

  function Run(p: Pipe, steps: seq<Step>): Pipe
    decreases steps
  {
    if steps == [] then p else Run(Do(p, steps[0]), steps[1..])
  }

  function Trace(p: Pipe, steps: seq<Step>): seq<Event>
    decreases steps
  {
    if steps == [] then [] else Verdict(p, steps[0]) + Trace(Do(p, steps[0]), steps[1..])
  }

  // ---- what every step keeps ----

  ghost predicate Genuine(start: uint32, sent: nat, q: Packet) {
    && q.number < sent
    && q.version <= MAX_VERSION
    && q.bytes == ChecksumOf(q.version, q.total, Wrap(start + q.number))
  }

  /** The counters of a direction's two ends follow its history, and its packets are as they were written. */
  ghost predicate Counted(p: Pipe, s: Side) {
    var ch := From(p, s);
    && End(p, s).numWrite == Wrap(ch.start + ch.sent)
    && End(p, Other(s)).numRead == Wrap(ch.start + ch.checked)
    && forall q :: q in ch.packets ==> Genuine(ch.start, ch.sent, q)
  }

  ghost predicate Coherent(p: Pipe) {
    Valid(p.guest) && Valid(p.host) && Counted(p, Guest) && Counted(p, Host)
  }

  /** A pipe between two valid ends with equal counters and nothing in flight. */
  function Opened(guest: Calc, host: Calc): Pipe {
    Pipe(guest, host, Channel(guest.numWrite, [], 0, 0), Channel(host.numWrite, [], 0, 0))
  }

  lemma OpenedIsCoherent(guest: Calc, host: Calc)
    requires Valid(guest) && Valid(host)
    requires guest.numWrite == host.numRead && host.numWrite == guest.numRead
    ensures Coherent(Opened(guest, host))
    ensures Ordered(Opened(guest, host).fromGuest) && Ordered(Opened(guest, host).fromHost)
  {}

  lemma LocalKeepsCoherent(p: Pipe, s: Side, call: Call)
    requires Coherent(p)
    ensures Coherent(Do(p, Local(s, call)))
  {}

  lemma PushIsGenuine(ch: Channel, c: Calc, room: nat, length: nat)
    requires Valid(c) && room >= c.checksumSize && c.numWrite == Wrap(ch.start + ch.sent)
    requires forall q :: q in ch.packets ==> Genuine(ch.start, ch.sent, q)
    ensures var ch' := Push(ch, Answer(c, WriteChecksum(room)).bytes, c, length);
      forall q :: q in ch'.packets ==> Genuine(ch.start, ch'.sent, q)
  {
    hide Encode;
    var ch' := Push(ch, Answer(c, WriteChecksum(room)).bytes, c, length);
    forall q | q in ch'.packets
      ensures Genuine(ch.start, ch'.sent, q)
    {
      if q in ch.packets {
        assert Genuine(ch.start, ch.sent, q);
      }
    }
  }

  lemma SendKeepsCoherent(p: Pipe, s: Side, room: nat, length: nat)
    requires Coherent(p)
    ensures Coherent(Do(p, Send(s, room, length)))
  {
    hide Encode;
    var c, ch := End(p, s), From(p, s);
    if room >= c.checksumSize {
      PushIsGenuine(ch, c, room, length);
      WrapAbsorbs(ch.start + ch.sent, 1);
      var p' := Do(p, Send(s, room, length));
      assert From(p', Other(s)) == From(p, Other(s)) && End(p', Other(s)) == End(p, Other(s));
      assert Counted(p', s);
      assert Counted(p', Other(s));
    }
  }

  lemma CheckKeepsCoherent(p: Pipe, s: Side, k: nat, keep: bool)
    requires Coherent(p)
    ensures Coherent(Do(p, Check(s, k, keep)))
  {
    hide Encode;
    var ch := From(p, Other(s));
    WrapAbsorbs(ch.start + ch.checked, 1);
  }

  lemma DropKeepsCoherent(p: Pipe, s: Side, k: nat)
    requires Coherent(p)
    ensures Coherent(Do(p, Drop(s, k)))
  {}

  lemma MigrateChangesNothing(p: Pipe, s: Side, spare: Calc)
    requires Coherent(p)
    ensures Do(p, Migrate(s, spare)) == p
  {
    if !End(p, s).encoding && Valid(spare) && !spare.encoding {
      MigrateKeepsEnd(End(p, s), spare);
    }
  }

  lemma StepKeepsCoherent(p: Pipe, step: Step)
    requires Coherent(p)
    ensures Coherent(Do(p, step))
  {
    match step
    case Local(s, call) => LocalKeepsCoherent(p, s, call);
    case Send(s, room, length) => SendKeepsCoherent(p, s, room, length);
    case Check(s, k, keep) => CheckKeepsCoherent(p, s, k, keep);
    case Drop(s, k) => DropKeepsCoherent(p, s, k);
    case Migrate(s, spare) => MigrateChangesNothing(p, s, spare);
  }

  lemma MigrateKeepsEnd(c: Calc, spare: Calc)
    requires Valid(c) && !c.encoding && Valid(spare) && !spare.encoding
    ensures Loaded(spare, Saved(c)) == c
  {
    SnapshotRoundTrip(c, spare, []);
    assert Saved(c) + [] == Saved(c);
  }

  // ---- exact acceptance, whatever the channels do ----

  /** Sent as number i and checked as number j: same version and, in version 1, i = j mod 2^32 and the length
      the receiver had added up when it checked is the length the sender had when it wrote. */
  ghost predicate Agrees(e: Event) {
    && e.packet.version == e.receiver.version
    && (e.receiver.version == 1 ==>
        Wrap(e.packet.number) == Wrap(e.checkedAs) && e.packet.total == e.receiver.total)
  }

  lemma VerdictIsExact(p: Pipe, step: Step)
    requires Coherent(p)
    ensures forall e :: e in Verdict(p, step) ==> (e.ok <==> Agrees(e))
  {
    hide Encode;
    if Verdict(p, step) != [] {
      var e := Verdict(p, step)[0];
      var ch := From(p, Other(step.side));
      assert e.packet in ch.packets && Genuine(ch.start, ch.sent, e.packet);
      ChecksumsAgree(e.packet.version, e.packet.total, Wrap(ch.start + e.packet.number),
                     e.receiver.version, e.receiver.total, Wrap(ch.start + e.checkedAs));
      WrapOffsets(ch.start, e.packet.number, e.checkedAs);
    }
  }

  /** On every run, over channels that lose, repeat and reorder at will, each validation accepts exactly the
      packets that agree with its receiver. */
  lemma {:induction false} ExactAcceptance(p: Pipe, steps: seq<Step>)
    requires Coherent(p)
    ensures Coherent(Run(p, steps))
    ensures forall e :: e in Trace(p, steps) ==> (e.ok <==> Agrees(e))
    decreases steps
  {
    if steps != [] {
      VerdictIsExact(p, steps[0]);
      StepKeepsCoherent(p, steps[0]);
      ExactAcceptance(Do(p, steps[0]), steps[1..]);
    }
  }

  // ---- channels that keep the order, but may lose and repeat ----

  /** The receiver validates the packet in front, and perhaps meets it again. */
  predicate InOrder(step: Step) {
    step.Check? ==> step.k == 0
  }

  /** The net loss of a direction: packets that disappeared, less repeated validations. */
  function Lost(ch: Channel): int {
    ch.sent - ch.checked - |ch.packets|
  }

  /** Packets travel in the order of their numbers, none of which is repeated. */
  ghost predicate Ordered(ch: Channel) {
    && (forall i, j :: 0 <= i < j < |ch.packets| ==> ch.packets[i].number < ch.packets[j].number)
    && (forall i :: 0 <= i < |ch.packets| ==> ch.packets[i].number + |ch.packets| - i <= ch.sent)
  }

  /** The packets numbered above x, those in flight and those to come, are at least d ahead of the validations
      they will meet. */
  ghost predicate AheadBy(ch: Channel, x: int, d: int) {
    && x < ch.sent
    && Lost(ch) >= d
    && forall i :: 0 <= i < |ch.packets| && ch.packets[i].number > x ==> ch.packets[i].number >= ch.checked + i + d
  }

  lemma PushKeepsOrder(ch: Channel, bytes: seq<byte>, c: Calc, length: nat, x: int, d: int)
    requires Ordered(ch) && AheadBy(ch, x, d)
    ensures var ch' := Push(ch, bytes, c, length);
      Ordered(ch') && Lost(ch') == Lost(ch) && AheadBy(ch', x, d)
  {}

  lemma PopKeepsOrder(ch: Channel, keep: bool, x: int, d: int)
    requires Ordered(ch) && ch.packets != [] && AheadBy(ch, x, d)
    ensures var ch', repeat := Pop(ch, 0, keep), if keep then 1 else 0;
      Ordered(ch') && Lost(ch') == Lost(ch) - repeat && AheadBy(ch', x, d - repeat)
  {}

  lemma DropKeepsOrder(ch: Channel, k: nat)
    requires Ordered(ch) && k < |ch.packets|
    ensures var ch' := ch.(packets := Without(ch.packets, k));
      Ordered(ch') && Lost(ch') == Lost(ch) + 1
  {}

  lemma DropKeepsAhead(ch: Channel, k: nat, x: int, d: int)
    requires Ordered(ch) && k < |ch.packets| && AheadBy(ch, x, d)
    ensures AheadBy(ch.(packets := Without(ch.packets, k)), x, d)
  {}

  /** Losing a packet puts every later one another step ahead. */
  lemma DropWidensLead(ch: Channel, k: nat, d: int)
    requires Ordered(ch) && k < |ch.packets| && AheadBy(ch, ch.packets[k].number, d)
    ensures AheadBy(ch.(packets := Without(ch.packets, k)), ch.packets[k].number, d + 1)
  {
    var ch' := ch.(packets := Without(ch.packets, k));
    forall i | 0 <= i < |ch'.packets| && ch'.packets[i].number > ch.packets[k].number
      ensures ch'.packets[i].number >= ch'.checked + i + d + 1
    {
      assert i >= k;
    }
  }

  /** Whether a step makes a packet of side s disappear. */
  predicate Loses(p: Pipe, step: Step, s: Side) {
    step.Drop? && step.side == s && step.k < |From(p, s).packets|
  }

  /** Whether a step validates a packet of side s that will be met again. */
  predicate Repeating(p: Pipe, step: Step, s: Side) {
    step.Check? && step.side == Other(s) && step.keep && step.k < |From(p, s).packets|
  }

  lemma ChannelStep(p: Pipe, step: Step, s: Side, x: int, d: int)
    requires InOrder(step) && Coherent(p) && Ordered(From(p, s)) && AheadBy(From(p, s), x, d)
    ensures var ch, ch' := From(p, s), From(Do(p, step), s);
      var lost, repeat := if Loses(p, step, s) then 1 else 0, if Repeating(p, step, s) then 1 else 0;
      Ordered(ch') && Lost(ch') == Lost(ch) + lost - repeat && AheadBy(ch', x, d - repeat)
  {
    hide Encode, Counted, Ordered, AheadBy, Wrap;
    var ch := From(p, s);
    match step
    case Local(_, _) =>
    case Send(s', room, length) =>
      if s' == s && room >= End(p, s).checksumSize {
        PushKeepsOrder(ch, Answer(End(p, s), WriteChecksum(room)).bytes, End(p, s), length, x, d);
      }
    case Check(s', k, keep) =>
      if s' == Other(s) && ch.packets != [] {
        PopKeepsOrder(ch, keep, x, d);
      }
    case Drop(s', k) =>
      if s' == s && k < |ch.packets| {
        DropKeepsOrder(ch, k);
        DropKeepsAhead(ch, k, x, d);
      }
    case Migrate(s', spare) => MigrateChangesNothing(p, s', spare);
  }

  /** How many packets of side s a run makes disappear. */
  function Drops(p: Pipe, steps: seq<Step>, s: Side): nat
    decreases steps
  {
    if steps == [] then 0
    else (if Loses(p, steps[0], s) then 1 else 0) + Drops(Do(p, steps[0]), steps[1..], s)
  }

  /** How many validations of packets of side s a run repeats. */
  function Repeats(p: Pipe, steps: seq<Step>, s: Side): nat
    decreases steps
  {
    if steps == [] then 0
    else (if Repeating(p, steps[0], s) then 1 else 0) + Repeats(Do(p, steps[0]), steps[1..], s)
  }
}
