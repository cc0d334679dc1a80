/** Channels that keep the order but may lose and repeat packets: what losses and repeats cost. */
module Loss {
  import opened Words
  import opened Checksum
  import opened Pipe

  ghost predicate Sound(p: Pipe) {
    Coherent(p) && Ordered(From(p, Guest)) && Ordered(From(p, Host))
  }

  lemma SoundChannels(p: Pipe)
    requires Sound(p)
    ensures Ordered(p.fromGuest) && Ordered(p.fromHost) && Valid(p.guest) && Valid(p.host)
  {}

  ghost predicate AllInOrder(steps: seq<Step>) {
    forall step :: step in steps ==> InOrder(step)
  }

  lemma StepKeepsSound(p: Pipe, step: Step)
    requires Sound(p) && InOrder(step)
    ensures Sound(Do(p, step))
  {
    StepKeepsCoherent(p, step);
    var guest, host := From(p, Guest), From(p, Host);
    NoLeadBelow(guest);
    NoLeadBelow(host);
    ChannelStep(p, step, Guest, guest.sent - 1, Lost(guest));
    ChannelStep(p, step, Host, host.sent - 1, Lost(host));
  }

  /** Packets yet to be sent will be ahead by the net loss so far. */
  lemma NoLeadBelow(ch: Channel)
    requires Ordered(ch)
    ensures AheadBy(ch, ch.sent - 1, Lost(ch))
  {}

  // ---- the balance of a direction ----

  lemma {:induction false} NetLoss(p: Pipe, steps: seq<Step>, s: Side)
    requires Sound(p) && AllInOrder(steps)
    ensures Sound(Run(p, steps))
    ensures Lost(From(Run(p, steps), s)) == Lost(From(p, s)) + Drops(p, steps, s) - Repeats(p, steps, s)
    decreases steps
  {
    if steps != [] {
      assert InOrder(steps[0]);
      StepKeepsSound(p, steps[0]);
      NoLeadBelow(From(p, s));
      ChannelStep(p, steps[0], s, From(p, s).sent - 1, Lost(From(p, s)));
      NetLoss(Do(p, steps[0]), steps[1..], s);
    }
  }

  /** Conservation between the two ends: after any in-order run from a pipe whose counters are in step, the sender
      has counted what the receiver has, what is in flight and what was lost, less what was validated again. */
  lemma CountersBalance(p: Pipe, steps: seq<Step>, s: Side)
    requires Sound(p) && AllInOrder(steps) && Lost(From(p, s)) == 0
    ensures var p' := Run(p, steps);
      End(p', s).numWrite == Wrap(End(p', Other(s)).numRead + |From(p', s).packets|
                                  + Drops(p, steps, s) - Repeats(p, steps, s))
  {
    NetLoss(p, steps, s);
    hide Sound, Run, Drops, Repeats, Wrap;
    CountersNow(Run(p, steps), s);
  }

  lemma CountersNow(p: Pipe, s: Side)
    requires Sound(p)
    ensures End(p, s).numWrite == Wrap(End(p, Other(s)).numRead + |From(p, s).packets| + Lost(From(p, s)))
  {
    var ch := From(p, s);
    assert Counted(p, s);
    hide Coherent, Ordered, Genuine;
    WrapAbsorbs(ch.start + ch.checked, |ch.packets| + Lost(ch));
  }

  // ---- how far packets are ahead ----

  /** How far a packet's number is ahead of the validation that met it. */
  function Lag(e: Event): int {
    e.packet.number - e.checkedAs
  }

  lemma {:induction false} LagBounds(p: Pipe, steps: seq<Step>, s: Side, x: int, d: int)
    requires Sound(p) && AllInOrder(steps) && AheadBy(From(p, s), x, d)
    ensures forall e :: e in Trace(p, steps) && e.sender == s && e.packet.number > x ==>
      d - Repeats(p, steps, s) <= Lag(e) <= Lost(From(p, s)) + Drops(p, steps, s)
    decreases steps
  {
    if steps != [] {
      assert InOrder(steps[0]);
      VerdictLag(p, steps[0], s, x, d);
      StepKeepsSound(p, steps[0]);
      ChannelStep(p, steps[0], s, x, d);
      LagBounds(Do(p, steps[0]), steps[1..], s, x, d - (if Repeating(p, steps[0], s) then 1 else 0));
    }
  }

  lemma VerdictLag(p: Pipe, step: Step, s: Side, x: int, d: int)
    requires Sound(p) && InOrder(step) && AheadBy(From(p, s), x, d)
    ensures forall e :: e in Verdict(p, step) && e.sender == s && e.packet.number > x ==>
      d <= Lag(e) <= Lost(From(p, s))
  {
    if Verdict(p, step) != [] {
      var e := Verdict(p, step)[0];
      var ch := From(p, e.sender);
      assert e.packet == ch.packets[0];
    }
  }

  /** A verdict depends on the lag alone, besides the versions and the totals. */
  lemma LagDecides(e: Event)
    ensures Agrees(e) <==>
            e.packet.version == e.receiver.version
            && (e.receiver.version == 1 ==> Wrap(Lag(e)) == 0 && e.packet.total == e.receiver.total)
  {
    WrapOffsets(e.checkedAs, Lag(e), 0);
  }

  /** Accepted while losses and repeats stay below 2^32. */
  ghost predicate Punctual(e: Event) {
    && e.packet.version == e.receiver.version
    && (e.receiver.version == 1 ==> Lag(e) == 0 && e.packet.total == e.receiver.total)
  }

  /** When every packet starts at least `lead` ahead, which may be negative, then as long as a direction's losses and
      its repeats each stay below 2^32 an in-order run accepts exactly the packets that were written in the
      receiver's version and, in version 1, arrive with as many losses as repeats before them and carry the length
      the receiver added up. */
  lemma InOrderAcceptance(p: Pipe, steps: seq<Step>, s: Side, lead: int)
    requires Sound(p) && AllInOrder(steps) && AheadBy(From(p, s), -1, lead)
    requires Lost(From(p, s)) + Drops(p, steps, s) < TWO_TO_32
    requires Repeats(p, steps, s) - lead < TWO_TO_32
    ensures forall e :: e in Trace(p, steps) && e.sender == s ==>
      lead - Repeats(p, steps, s) <= Lag(e) <= Lost(From(p, s)) + Drops(p, steps, s)
      && (e.ok <==> Punctual(e))
  {
    LagBounds(p, steps, s, -1, lead);
    ExactAcceptance(p, steps);
    forall e | e in Trace(p, steps) && e.sender == s
      ensures e.ok <==> Punctual(e)
    {
      LagDecides(e);
      WrapNearZero(Lag(e));
    }
  }

  /** A net loss desynchronises a direction for good. Once the packets numbered above x are at least d ahead, none
      of them is accepted in version 1 as long as fewer than d validations are repeated and the net loss, with
      whatever else is lost, stays below 2^32; whatever the two ends do meanwhile. */
  lemma NetLossIsPermanent(p: Pipe, s: Side, x: int, d: nat, steps: seq<Step>)
    requires Sound(p) && AllInOrder(steps) && AheadBy(From(p, s), x, d)
    requires Repeats(p, steps, s) < d
    requires Lost(From(p, s)) + Drops(p, steps, s) < TWO_TO_32
    ensures forall e :: e in Trace(p, steps) && e.sender == s && e.packet.number > x ==>
      (e.ok <==> e.packet.version == 0 && e.receiver.version == 0)
  {
    LagBounds(p, steps, s, x, d);
    ExactAcceptance(p, steps);
    forall e | e in Trace(p, steps) && e.sender == s && e.packet.number > x
      ensures e.ok <==> e.packet.version == 0 && e.receiver.version == 0
    {
      LagDecides(e);
      WrapNearZero(Lag(e));
      EventVersions(p, steps, e);
    }
  }

  lemma {:induction false} EventVersions(p: Pipe, steps: seq<Step>, e: Event)
    requires Coherent(p) && e in Trace(p, steps)
    ensures e.packet.version <= MAX_VERSION && e.receiver.version <= MAX_VERSION
    decreases steps
  {
    if e in Verdict(p, steps[0]) {
      var ch := From(p, e.sender);
      assert e.packet in ch.packets && Genuine(ch.start, ch.sent, e.packet);
    } else {
      StepKeepsCoherent(p, steps[0]);
      EventVersions(Do(p, steps[0]), steps[1..], e);
    }
  }

  /** So, after an in-order run from a pipe whose counters are in step has lost d packets more than it repeated
      validations, no packet written from then on is accepted in version 1 until d validations are repeated. */
  lemma LaterPacketsRejected(p: Pipe, s: Side, before: seq<Step>, after: seq<Step>, d: nat)
    requires Sound(p) && Lost(From(p, s)) == 0 && AllInOrder(before) && AllInOrder(after)
    requires Drops(p, before, s) - Repeats(p, before, s) == d
    requires Repeats(Run(p, before), after, s) < d
    requires d + Drops(Run(p, before), after, s) < TWO_TO_32
    ensures var p' := Run(p, before);
      forall e :: e in Trace(p', after) && e.sender == s && e.packet.number >= From(p', s).sent ==>
        (e.ok <==> e.packet.version == 0 && e.receiver.version == 0)
  {
    NetLoss(p, before, s);
    var p' := Run(p, before);
    NoLeadBelow(From(p', s));
    NetLossIsPermanent(p', s, From(p', s).sent - 1, d, after);
  }

  /** And when a packet is lost while it and the packets behind it are not behind their validations, no packet
      behind it is accepted in version 1 until a validation is repeated. */
  lemma LossIsPermanent(p: Pipe, s: Side, k: nat, d: nat, steps: seq<Step>)
    requires Sound(p) && AllInOrder(steps) && k < |From(p, s).packets|
    requires AheadBy(From(p, s), From(p, s).packets[k].number, d)
    requires Repeats(Do(p, Drop(s, k)), steps, s) <= d
    requires Lost(From(p, s)) + 1 + Drops(Do(p, Drop(s, k)), steps, s) < TWO_TO_32
    ensures var x := From(p, s).packets[k].number;
      forall e :: e in Trace(Do(p, Drop(s, k)), steps) && e.sender == s && e.packet.number > x ==>
        (e.ok <==> e.packet.version == 0 && e.receiver.version == 0)
  {
    StepKeepsSound(p, Drop(s, k));
    DropKeepsOrder(From(p, s), k);
    DropWidensLead(From(p, s), k, d);
    NetLossIsPermanent(Do(p, Drop(s, k)), s, From(p, s).packets[k].number, d + 1, steps);
  }

  // ---- the bounds are sharp ----

  lemma {:induction false} RunConcat(p: Pipe, xs: seq<Step>, ys: seq<Step>)
    ensures Run(p, xs + ys) == Run(Run(p, xs), ys)
    ensures Trace(p, xs + ys) == Trace(p, xs) + Trace(Run(p, xs), ys)
    decreases xs
  {
    hide Do, Verdict;
    if xs == [] {
      assert xs + ys == ys;
    } else {
      assert (xs + ys)[1..] == xs[1..] + ys;
      RunConcat(Do(p, xs[0]), xs[1..], ys);
    }
  }

  lemma RunOne(p: Pipe, a: Step)
    ensures Run(p, [a]) == Do(p, a)
    ensures Trace(p, [a]) == Verdict(p, a)
  {
    assert Trace(Do(p, a), [a][1..]) == [];
  }

  lemma RunTwo(p: Pipe, a: Step, b: Step)
    ensures Run(p, [a, b]) == Do(Do(p, a), b)
    ensures Trace(p, [a, b]) == Verdict(p, a) + Verdict(Do(p, a), b)
  {
    assert [a, b][1..] == [b];
    RunOne(Do(p, a), b);
  }

  /** Both ends idle in version 1, and nothing in flight from s but the given packets. */
  ghost predicate AtRest(p: Pipe, s: Side, packets: seq<Packet>, sent: nat, checked: nat) {
    && Coherent(p)
    && p.guest.version == 1 && !p.guest.encoding && p.host.version == 1 && !p.host.encoding
    && From(p, s).packets == packets && From(p, s).sent == sent && From(p, s).checked == checked
  }

  /** Send an empty message that is lost, n times. */
  function LostSends(s: Side, n: nat): seq<Step> {
    if n == 0 then [] else [Send(s, VERSION_1_CHECKSUM_SIZE, 0), Drop(s, 0)] + LostSends(s, n - 1)
  }

  lemma SendAtRest(p: Pipe, s: Side, sent: nat, checked: nat)
    requires AtRest(p, s, [], sent, checked)
    ensures var p' := Do(p, Send(s, VERSION_1_CHECKSUM_SIZE, 0));
      |From(p', s).packets| == 1 && AtRest(p', s, [From(p', s).packets[0]], sent + 1, checked)
      && From(p', s).packets[0].number == sent
      && From(p', s).packets[0].version == 1 && From(p', s).packets[0].total == 0
  {
    SendKeepsCoherent(p, s, VERSION_1_CHECKSUM_SIZE, 0);
    hide Encode, Counted, Wrap;
  }

  lemma {:induction false} LoseMany(p: Pipe, s: Side, n: nat, sent: nat, checked: nat)
    requires AtRest(p, s, [], sent, checked)
    ensures AtRest(Run(p, LostSends(s, n)), s, [], sent + n, checked)
    decreases n
  {
    if n != 0 {
      var a, b := Send(s, VERSION_1_CHECKSUM_SIZE, 0), Drop(s, 0);
      SendAtRest(p, s, sent, checked);
      DropKeepsCoherent(Do(p, a), s, 0);
      RunTwo(p, a, b);
      RunConcat(p, [a, b], LostSends(s, n - 1));
      hide Encode, Counted, Wrap;
      LoseMany(Do(Do(p, a), b), s, n - 1, sent + 1, checked);
    }
  }

  /** Validate the packet in front n times, meeting it again each time. */
  function RepeatedChecks(s: Side, n: nat): seq<Step> {
    if n == 0 then [] else [Check(Other(s), 0, true)] + RepeatedChecks(s, n - 1)
  }

  lemma {:induction false} RepeatMany(p: Pipe, s: Side, n: nat, q: Packet, sent: nat, checked: nat)
    requires AtRest(p, s, [q], sent, checked)
    ensures AtRest(Run(p, RepeatedChecks(s, n)), s, [q], sent, checked + n)
    decreases n
  {
    if n != 0 {
      var a := Check(Other(s), 0, true);
      CheckKeepsCoherent(p, Other(s), 0, true);
      hide Encode, Counted, Wrap;
      RepeatMany(Do(p, a), s, n - 1, q, sent, checked + 1);
      assert RepeatedChecks(s, n)[1..] == RepeatedChecks(s, n - 1);
    }
  }

  /** A run that repeats m validations of its first packet, then loses n packets, then sends and checks one more. */
  function LateRun(s: Side, m: nat, n: nat): seq<Step> {
    [Send(s, VERSION_1_CHECKSUM_SIZE, 0)] + RepeatedChecks(s, m) + [Check(Other(s), 0, false)] + LostSends(s, n)
    + [Send(s, VERSION_1_CHECKSUM_SIZE, 0)]
  }

  lemma LateRunEnds(p: Pipe, s: Side, m: nat, n: nat)
    requires AtRest(p, s, [], 0, 0)
    ensures var p' := Run(p, LateRun(s, m, n));
      |From(p', s).packets| == 1 && AtRest(p', s, [From(p', s).packets[0]], n + 2, m + 1)
      && From(p', s).packets[0].number == n + 1
      && From(p', s).packets[0].version == 1 && From(p', s).packets[0].total == 0
  {
    hide AtRest, Do;
    var send := Send(s, VERSION_1_CHECKSUM_SIZE, 0);
    var early, p1 := EarlyRun(p, s, m);
    LoseMany(p1, s, n, 1, m + 1);
    var p2 := Run(p1, LostSends(s, n));
    SendAtRest(p2, s, n + 1, m + 1);
    RunOne(p2, send);
    RunConcat(p, early, LostSends(s, n));
    RunConcat(p, early + LostSends(s, n), [send]);
  }

  /** From an opened version 1 pipe such a run ends with a packet in flight that is accepted if and only if m and n
      are the same mod 2^32: repeats make up for losses one by one, 2^32 losses go unnoticed, and nothing else
      does. */
  lemma LossesAndRepeats(guest: Calc, host: Calc, s: Side, m: nat, n: nat)
    requires Valid(guest) && guest.version == 1 && !guest.encoding
    requires Valid(host) && host.version == 1 && !host.encoding
    requires guest.numWrite == host.numRead && host.numWrite == guest.numRead
    ensures var p, last := Run(Opened(guest, host), LateRun(s, m, n)), Check(Other(s), 0, false);
      && Coherent(p) && Lost(From(p, s)) == n - m
      && |Verdict(p, last)| == 1
      && (Verdict(p, last)[0].ok <==> Wrap(n) == Wrap(m))
  {
    OpenedIsCoherent(guest, host);
    assert AtRest(Opened(guest, host), s, [], 0, 0);
    hide Encode, Coherent, Verdict, Opened, LateRun;
    LateRunEnds(Opened(guest, host), s, m, n);
    LastVerdict(Run(Opened(guest, host), LateRun(s, m, n)), s, n + 1, m + 1);
    WrapOffsets(1, n, m);
  }

  lemma EarlyRun(p: Pipe, s: Side, m: nat) returns (steps: seq<Step>, p': Pipe)
    requires AtRest(p, s, [], 0, 0)
    ensures steps == [Send(s, VERSION_1_CHECKSUM_SIZE, 0)] + RepeatedChecks(s, m) + [Check(Other(s), 0, false)]
    ensures p' == Run(p, steps) && AtRest(p', s, [], 1, m + 1)
  {
    var send, check := Send(s, VERSION_1_CHECKSUM_SIZE, 0), Check(Other(s), 0, false);
    SendAtRest(p, s, 0, 0);
    RunOne(p, send);
    var sent := Do(p, send);
    RepeatMany(sent, s, m, From(sent, s).packets[0], 1, 0);
    RunConcat(p, [send], RepeatedChecks(s, m));
    var repeated := Run(sent, RepeatedChecks(s, m));
    CheckKeepsCoherent(repeated, Other(s), 0, false);
    RunOne(repeated, check);
    RunConcat(p, [send] + RepeatedChecks(s, m), [check]);
    hide Encode, Counted, Wrap;
    steps := [send] + RepeatedChecks(s, m) + [check];
    p' := Do(repeated, check);
  }

  lemma LastVerdict(p: Pipe, s: Side, number: nat, checked: nat)
    requires |From(p, s).packets| == 1 && AtRest(p, s, [From(p, s).packets[0]], number + 1, checked)
    requires From(p, s).packets[0].number == number
    requires From(p, s).packets[0].version == 1 && From(p, s).packets[0].total == 0
    ensures |Verdict(p, Check(Other(s), 0, false))| == 1
    ensures Verdict(p, Check(Other(s), 0, false))[0].ok <==> Wrap(number) == Wrap(checked)
    ensures Coherent(p) && Lost(From(p, s)) == number - checked
  {
    VerdictIsExact(p, Check(Other(s), 0, false));
    hide Encode, Counted, Wrap;
    assert Other(Other(s)) == s;
  }

  /** 2^32 losses in a row go unnoticed. */
  lemma FullCycleResynchronises(guest: Calc, host: Calc, s: Side)
    requires Valid(guest) && guest.version == 1 && !guest.encoding
    requires Valid(host) && host.version == 1 && !host.encoding
    requires guest.numWrite == host.numRead && host.numWrite == guest.numRead
    ensures var p, last := Run(Opened(guest, host), LateRun(s, 0, TWO_TO_32)), Check(Other(s), 0, false);
      Lost(From(p, s)) == TWO_TO_32 && |Verdict(p, last)| == 1 && Verdict(p, last)[0].ok
  {
    LossesAndRepeats(guest, host, s, 0, TWO_TO_32);
  }
}
