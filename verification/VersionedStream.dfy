/** A one-way stream in which both ends change version at the same message boundaries. */
module VersionedStream {
  import opened Words
  import opened Checksum

  /** A message, as the sender cuts it into buffers and as the receiver does, or a change of version. */
  datatype Item = Message(cut: seq<nat>, recut: seq<nat>) | Select(version: uint32)

  function Sending(c: Calc, item: Item): Calc {
    match item
    case Message(cut, _) => Next(After(c, Adds(cut)), WriteChecksum(MAX_CHECKSUM_LENGTH))
    case Select(v) => Next(c, SetVersion(v))
  }

  /** The checksum the sender writes for a message, or what its setVersion returns. */
  function Sent(c: Calc, item: Item): Reply {
    match item
    case Message(cut, _) => Answer(After(c, Adds(cut)), WriteChecksum(MAX_CHECKSUM_LENGTH))
    case Select(v) => Answer(c, SetVersion(v))
  }

  /** Everything the sender produces. */
  function Wire(c: Calc, items: seq<Item>): (w: seq<Reply>)
    ensures |w| == |items|
    decreases items
  {
    if items == [] then [] else [Sent(c, items[0])] + Wire(Sending(c, items[0]), items[1..])
  }

  /** The checksum part of a reply. */
  function Payload(r: Reply): seq<byte> {
    if r.Emitted? then r.bytes else []
  }

  function Receiving(d: Calc, item: Item, arrived: Reply): Calc {
    match item
    case Message(_, recut) => Next(After(d, Adds(recut)), Validate(Payload(arrived)))
    case Select(v) => Next(d, SetVersion(v))
  }

  function Received(d: Calc, item: Item, arrived: Reply): Reply {
    match item
    case Message(_, recut) => Answer(After(d, Adds(recut)), Validate(Payload(arrived)))
    case Select(v) => Answer(d, SetVersion(v))
  }

  /** The receiver's verdict on each message, and what its setVersion returns at each change. */
  function Verdicts(d: Calc, items: seq<Item>, wire: seq<Reply>): seq<Reply>
    requires |wire| == |items|
    decreases items
  {
    if items == [] then []
    else [Received(d, items[0], wire[0])] + Verdicts(Receiving(d, items[0], wire[0]), items[1..], wire[1..])
  }

  /** The verdicts to expect, from the items alone: a supported change succeeds, and a message is accepted in
      version 0, and in version 1 when both ends count the same length mod 2^32. */
  function Expected(v: uint32, items: seq<Item>): seq<Reply>
    decreases items
  {
    if items == [] then []
    else match items[0]
      case Select(w) => [Flag(w <= MAX_VERSION)] + Expected(if w <= MAX_VERSION then w else v, items[1..])
      case Message(cut, recut) =>
        [Flag(v == 0 || Wrap(Sum(cut)) == Wrap(Sum(recut)))] + Expected(v, items[1..])
  }

  ghost predicate InStep(c: Calc, d: Calc) {
    && Valid(c) && !c.encoding && Valid(d) && !d.encoding
    && c.version == d.version && c.numWrite == d.numRead
  }

  /** In version 0 a message is accepted whatever the two ends add up. */
  lemma Version0Message(c: Calc, d: Calc, item: Item)
    requires InStep(c, d) && item.Message? && c.version == 0
    ensures InStep(Sending(c, item), Receiving(d, item, Sent(c, item))) && Sending(c, item).version == 0
    ensures Received(d, item, Sent(c, item)) == Flag(true)
  {
    hide Encode, Wrap, Adds, Sum, After;
    AddsAccumulate(c, item.cut);
    AddsAccumulate(d, item.recut);
  }

  /** In version 1 it is accepted when they add up the same length mod 2^32. */
  lemma Version1Message(c: Calc, d: Calc, item: Item)
    requires InStep(c, d) && item.Message? && c.version == 1
    ensures InStep(Sending(c, item), Receiving(d, item, Sent(c, item))) && Sending(c, item).version == 1
    ensures Received(d, item, Sent(c, item)) == Flag(Wrap(Sum(item.cut)) == Wrap(Sum(item.recut)))
  {
    hide Encode, Wrap, Adds, Sum, After;
    AddsAccumulate(c, item.cut);
    AddsAccumulate(d, item.recut);
    EncodeInjective(Wrap(Sum(item.cut)), c.numWrite, Wrap(Sum(item.recut)), d.numRead);
  }

  lemma MessageKeepsStep(c: Calc, d: Calc, item: Item)
    requires InStep(c, d) && item.Message?
    ensures InStep(Sending(c, item), Receiving(d, item, Sent(c, item)))
    ensures Sending(c, item).version == c.version
    ensures Received(d, item, Sent(c, item)) ==
            Flag(c.version == 0 || Wrap(Sum(item.cut)) == Wrap(Sum(item.recut)))
  {
    if c.version == 0 {
      Version0Message(c, d, item);
    } else {
      Version1Message(c, d, item);
    }
    hide Sending, Receiving, Received, Sent, Wrap, Sum;
  }

  /** Every change of version succeeds or fails at both ends alike, and every message is judged by the version
      in force and the two total lengths alone: version 0 messages count too, and a change never strands a
      partial length. */
  lemma {:induction false} StreamVerdicts(c: Calc, d: Calc, items: seq<Item>)
    requires InStep(c, d)
    ensures Verdicts(d, items, Wire(c, items)) == Expected(c.version, items)
    decreases items
  {
    if items != [] {
      var item := items[0];
      var sent := Sent(c, item);
      if item.Message? {
        MessageKeepsStep(c, d, item);
      }
      StreamVerdicts(Sending(c, item), Receiving(d, item, sent), items[1..]);
      assert Wire(c, items)[1..] == Wire(Sending(c, item), items[1..]);
    }
  }

  /** When the receiver counts every message at its sender's length, every message is accepted. */
  lemma {:induction false} HonestStreamAccepted(c: Calc, d: Calc, items: seq<Item>, i: nat)
    requires InStep(c, d) && i < |items|
    requires forall item :: item in items && item.Message? ==> Sum(item.cut) == Sum(item.recut)
    ensures |Verdicts(d, items, Wire(c, items))| == |items|
    ensures Verdicts(d, items, Wire(c, items))[i] ==
            Flag(items[i].Message? || items[i].version <= MAX_VERSION)
  {
    StreamVerdicts(c, d, items);
    HonestExpected(c.version, items, i);
  }

  lemma {:induction false} HonestExpected(v: uint32, items: seq<Item>, i: nat)
    requires i < |items|
    requires forall item :: item in items && item.Message? ==> Sum(item.cut) == Sum(item.recut)
    ensures |Expected(v, items)| == |items|
    ensures Expected(v, items)[i] == Flag(items[i].Message? || items[i].version <= MAX_VERSION)
    decreases items
  {
    var v' := if items[0].Select? && items[0].version <= MAX_VERSION then items[0].version else v;
    assert items[0] in items;
    if |items| == 1 {
      assert Expected(v', items[1..]) == [];
    } else {
      HonestExpected(v', items[1..], if i == 0 then 0 else i - 1);
    }
  }
}
