/** What a checksum calculator's calls do to its state and what they answer.

    The state is that of ChecksumCalculator; `Next` and `Answer` specify the methods of the class
    in Calculator.dfy, and everything proved about runs is proved about them. */
module Checksum {
  import opened Words
  import opened BitReversal

  const MAX_VERSION: uint32 := 1
  const VERSION_1_CHECKSUM_SIZE: uint32 := 8
  const MAX_CHECKSUM_LENGTH: uint32 := 8

  datatype Calc = Calc(
    version: uint32,
    checksumSize: uint32,
    numRead: uint32,
    numWrite: uint32,
    encoding: bool,
    total: uint32
  )

  /** A calculator as constructed. */
  const FRESH: Calc := Calc(0, 0, 0, 0, false, 0)

  function ByteSize(version: uint32): uint32 {
    if version == 1 then VERSION_1_CHECKSUM_SIZE else 0
  }

  predicate Valid(c: Calc) {
    && c.version <= MAX_VERSION
    && c.checksumSize == ByteSize(c.version)
    && (!c.encoding ==> c.total == 0)
    && (c.version == 0 ==> c.total == 0)
  }

  datatype Call =
    | SetVersion(version: uint32)
    | AddBuffer(length: nat)
    | WriteChecksum(room: nat)
    | ResetChecksum
    | Validate(expected: seq<byte>)

  /** What the caller sees: nothing, a returned flag, or the bytes of a written checksum. */
  datatype Reply = Silent | Flag(ok: bool) | Emitted(bytes: seq<byte>)

  /** A version 1 checksum: the reversed total length, then a message counter. */
  function Encode(total: uint32, counter: uint32): seq<byte> {
    WordBytes(Reversed(Word(total))) + LittleEndian(counter)
  }

  /** The checksum of version v for a message of the given total length and number. */
  function ChecksumOf(v: uint32, total: uint32, counter: uint32): seq<byte> {
    if v == 1 then Encode(total, counter) else []
  }

  function Cleared(c: Calc): Calc {
    c.(encoding := false, total := if c.version == 1 then 0 else c.total)
  }

  function Next(c: Calc, call: Call): Calc {
    match call
    case SetVersion(v) =>
      if v > MAX_VERSION || c.encoding then c else c.(version := v, checksumSize := ByteSize(v))
    case AddBuffer(n) =>
      c.(encoding := true, total := if c.version == 1 then Wrap(c.total + n) else c.total)
    case WriteChecksum(room) =>
      if room < c.checksumSize then c else Cleared(c).(numWrite := Wrap(c.numWrite + 1))
    case ResetChecksum =>
      Cleared(c)
    case Validate(_) =>
      Cleared(c).(numRead := Wrap(c.numRead + 1))
  }

  function Answer(c: Calc, call: Call): Reply {
    match call
    case SetVersion(v) => Flag(v <= MAX_VERSION && !c.encoding)
    case AddBuffer(_) => Silent
    case WriteChecksum(room) =>
      if room < c.checksumSize then Flag(false) else Emitted(ChecksumOf(c.version, c.total, c.numWrite))
    case ResetChecksum => Silent
    case Validate(expected) => Flag(expected == ChecksumOf(c.version, c.total, c.numRead))
  }

  /** The calculator after a sequence of calls. */
  function After(c: Calc, calls: seq<Call>): Calc
    decreases calls
  {
    if calls == [] then c else After(Next(c, calls[0]), calls[1..])
  }

  /** The answers to a sequence of calls. */
  function Answers(c: Calc, calls: seq<Call>): seq<Reply>
    decreases calls
  {
    if calls == [] then [] else [Answer(c, calls[0])] + Answers(Next(c, calls[0]), calls[1..])
  }

  // ---- encoding ----

  lemma EncodeLength(total: uint32, counter: uint32)
    ensures |Encode(total, counter)| == VERSION_1_CHECKSUM_SIZE
  {}

  /** Read back as two little-endian words, a checksum holds the total with bit i at position 31 - i, then the
      counter. */
  lemma EncodeLayout(total: uint32, counter: uint32, w: bv32)
    requires WordBytes(w) == Encode(total, counter)[..4]
    ensures forall i: bv6 | i < 32 :: Bit(w, i) == Bit(Word(total), 31 - i)
    ensures var b := Encode(total, counter);
      FromBigEndian([b[7], b[6], b[5], b[4]]) == counter
  {
    var b := Encode(total, counter);
    assert b[..4] == WordBytes(Reversed(Word(total)));
    WordBytesInjective(w, Reversed(Word(total)));
    forall i: bv6 | i < 32
      ensures Bit(Reversed(Word(total)), i) == Bit(Word(total), 31 - i)
    {
      ReversedBit(Word(total), i);
    }
    BigEndianRoundTrip(counter);
    assert [b[7], b[6], b[5], b[4]] == BigEndian(counter);
  }

  lemma EncodeInjective(total: uint32, counter: uint32, total': uint32, counter': uint32)
    ensures Encode(total, counter) == Encode(total', counter') <==> total == total' && counter == counter'
  {
    if Encode(total, counter) == Encode(total', counter') {
      assert Encode(total, counter)[..4] == WordBytes(Reversed(Word(total)));
      assert Encode(total', counter')[..4] == WordBytes(Reversed(Word(total')));
      assert Encode(total, counter)[4..] == LittleEndian(counter);
      assert Encode(total', counter')[4..] == LittleEndian(counter');
      WordBytesInjective(Reversed(Word(total)), Reversed(Word(total')));
      ReversedInjective(Word(total), Word(total'));
      WordInjective(total, total');
      LittleEndianInjective(counter, counter');
    }
  }

  /** Two checksums agree exactly when their versions do and, in version 1, their totals and counters do. */
  lemma ChecksumsAgree(v: uint32, total: uint32, counter: uint32, v': uint32, total': uint32, counter': uint32)
    requires v <= MAX_VERSION && v' <= MAX_VERSION
    ensures ChecksumOf(v, total, counter) == ChecksumOf(v', total', counter') <==>
            v == v' && (v == 1 ==> total == total' && counter == counter')
  {
    EncodeInjective(total, counter, total', counter');
    assert |Encode(total, counter)| == 8 && |Encode(total', counter')| == 8;
  }

  /** In any state exactly one byte string validates, and it is the one a calculator with the same
      accumulated length, version and message number would write. */
  lemma UniqueAcceptance(reader: Calc, writer: Calc, expected: seq<byte>, room: nat)
    requires Valid(reader) && Valid(writer)
    requires room >= writer.checksumSize
    ensures Answer(writer, WriteChecksum(room)).Emitted?
    ensures |Answer(writer, WriteChecksum(room)).bytes| == writer.checksumSize
    ensures Answer(reader, Validate(Answer(writer, WriteChecksum(room)).bytes)) == Flag(true) <==>
            writer.version == reader.version
            && (reader.version == 1 ==> writer.total == reader.total && writer.numWrite == reader.numRead)
    ensures writer == reader.(numWrite := reader.numRead) ==>
            (Answer(reader, Validate(expected)) == Flag(true) <==>
             Answer(writer, WriteChecksum(room)) == Emitted(expected))
  {
    ChecksumsAgree(writer.version, writer.total, writer.numWrite, reader.version, reader.total, reader.numRead);
  }

  // ---- fragmentation ----

  function Sum(lengths: seq<nat>): nat {
    if lengths == [] then 0 else lengths[0] + Sum(lengths[1..])
  }

  /** One addBuffer call per fragment. */
  function Adds(lengths: seq<nat>): (calls: seq<Call>)
    ensures |calls| == |lengths|
  {
    if lengths == [] then [] else [AddBuffer(lengths[0])] + Adds(lengths[1..])
  }

  /** Adding a message in pieces leaves its whole length, mod 2^32, in the accumulator. */
  lemma {:induction false} AddsAccumulate(c: Calc, lengths: seq<nat>)
    requires Valid(c)
    ensures After(c, Adds(lengths)) ==
            c.(encoding := c.encoding || lengths != [],
               total := if c.version == 1 then Wrap(c.total + Sum(lengths)) else 0)
    decreases lengths
  {
    if lengths != [] {
      var c' := Next(c, AddBuffer(lengths[0]));
      AddsAccumulate(c', lengths[1..]);
      WrapAbsorbs(c.total + lengths[0], Sum(lengths[1..]));
      assert Adds(lengths)[1..] == Adds(lengths[1..]);
    }
  }

  /** Writing and validating forget everything about an added message but its total. */
  lemma TotalDecides(c: Calc, c': Calc, room: nat, expected: seq<byte>)
    requires Valid(c) && Valid(c') && c' == c.(encoding := c'.encoding, total := c'.total)
    requires room >= c.checksumSize
    ensures Next(c, WriteChecksum(room)) == Next(c', WriteChecksum(room))
    ensures Next(c, Validate(expected)) == Next(c', Validate(expected))
    ensures Answer(c, WriteChecksum(room)) == Answer(c', WriteChecksum(room)) <==> c.total == c'.total
    ensures c.total == c'.total ==> Answer(c, Validate(expected)) == Answer(c', Validate(expected))
  {
    EncodeInjective(c.total, c.numWrite, c'.total, c.numWrite);
  }

  /** How a message is cut into buffers does not matter: in version 1 the checksum written, the verdict on any
      given checksum and the state left behind depend on the total length mod 2^32 only, and the checksum
      written tells two different totals apart. */
  lemma FragmentationIndependence(c: Calc, xs: seq<nat>, ys: seq<nat>, room: nat, expected: seq<byte>)
    requires Valid(c) && room >= c.checksumSize
    ensures var cx, cy := After(c, Adds(xs)), After(c, Adds(ys));
      && (Answer(cx, WriteChecksum(room)) == Answer(cy, WriteChecksum(room)) <==>
          c.version == 0 || Wrap(Sum(xs)) == Wrap(Sum(ys)))
      && Next(cx, WriteChecksum(room)) == Next(cy, WriteChecksum(room))
      && Next(cx, Validate(expected)) == Next(cy, Validate(expected))
      && (c.version == 0 || Wrap(Sum(xs)) == Wrap(Sum(ys)) ==>
          Answer(cx, Validate(expected)) == Answer(cy, Validate(expected)))
  {
    FragmentTotals(c, xs, ys);
    TotalDecides(After(c, Adds(xs)), After(c, Adds(ys)), room, expected);
  }

  lemma FragmentTotals(c: Calc, xs: seq<nat>, ys: seq<nat>)
    requires Valid(c)
    ensures var cx, cy := After(c, Adds(xs)), After(c, Adds(ys));
      && Valid(cx) && Valid(cy) && cx.checksumSize == c.checksumSize
      && cy == cx.(encoding := cy.encoding, total := cy.total)
      && (cx.total == cy.total <==> c.version == 0 || Wrap(Sum(xs)) == Wrap(Sum(ys)))
  {
    AddsAccumulate(c, xs);
    AddsAccumulate(c, ys);
    AddsKeepValid(c, xs);
    AddsKeepValid(c, ys);
    WrapOffsets(c.total, Sum(xs), Sum(ys));
  }

  lemma AddsKeepValid(c: Calc, lengths: seq<nat>)
    requires Valid(c)
    ensures Valid(After(c, Adds(lengths)))
  {
    AddsAccumulate(c, lengths);
    if lengths == [] {
      assert After(c, Adds(lengths)) == c;
    }
  }

  // ---- snapshots ----

  const SNAPSHOT_SIZE := 13

  /** The bytes save() puts on the stream. */
  function Saved(c: Calc): (b: seq<byte>)
    ensures |b| == SNAPSHOT_SIZE
  {
    [c.checksumSize % 256] + BigEndian(c.version) + BigEndian(c.numRead) + BigEndian(c.numWrite)
  }

  /** The calculator after load() has read the front of a stream. */
  function Loaded(c: Calc, b: seq<byte>): Calc
    requires |b| >= SNAPSHOT_SIZE
  {
    c.(checksumSize := b[0],
       version := FromBigEndian(b[1..5]),
       numRead := FromBigEndian(b[5..9]),
       numWrite := FromBigEndian(b[9..13]))
  }

  /** A snapshot is one byte for the checksum size, then version, read counter and write counter, each with its most
      significant byte first. */
  lemma SnapshotLayout(c: Calc)
    requires Valid(c)
    ensures var b: seq<int> := Saved(c);
      && b[0] == c.checksumSize
      && 0x100_0000 * b[1] + 0x1_0000 * b[2] + 0x100 * b[3] + b[4] == c.version
      && 0x100_0000 * b[5] + 0x1_0000 * b[6] + 0x100 * b[7] + b[8] == c.numRead
      && 0x100_0000 * b[9] + 0x1_0000 * b[10] + 0x100 * b[11] + b[12] == c.numWrite
  {
    BigEndianValue(c.version);
    BigEndianValue(c.numRead);
    BigEndianValue(c.numWrite);
    var b, v, r, w := Saved(c), BigEndian(c.version), BigEndian(c.numRead), BigEndian(c.numWrite);
    assert b == [c.checksumSize, v[0], v[1], v[2], v[3], r[0], r[1], r[2], r[3], w[0], w[1], w[2], w[3]];
    hide Saved, BigEndian;
  }

  /** Loading what an idle calculator saved turns any idle calculator into it, and consumes exactly that. */
  lemma SnapshotRoundTrip(c: Calc, spare: Calc, rest: seq<byte>)
    requires Valid(c) && !c.encoding
    requires Valid(spare) && !spare.encoding
    ensures Loaded(spare, Saved(c) + rest) == c
    ensures (Saved(c) + rest)[SNAPSHOT_SIZE..] == rest
  {
    var b := Saved(c) + rest;
    assert b[1..5] == BigEndian(c.version);
    assert b[5..9] == BigEndian(c.numRead);
    assert b[9..13] == BigEndian(c.numWrite);
    BigEndianRoundTrip(c.version);
    BigEndianRoundTrip(c.numRead);
    BigEndianRoundTrip(c.numWrite);
  }

  function SavedAll(cs: seq<Calc>): seq<byte> {
    if cs == [] then [] else Saved(cs[0]) + SavedAll(cs[1..])
  }

  /** Loads one snapshot after another into the given calculators. */
  function LoadedAll(spares: seq<Calc>, b: seq<byte>): seq<Calc>
    requires |b| >= SNAPSHOT_SIZE * |spares|
  {
    if spares == [] then [] else [Loaded(spares[0], b)] + LoadedAll(spares[1..], b[SNAPSHOT_SIZE..])
  }

  lemma LoadedAllStep(spares: seq<Calc>, b: seq<byte>, first: Calc, others: seq<Calc>)
    requires spares != [] && |b| >= SNAPSHOT_SIZE * |spares|
    requires Loaded(spares[0], b) == first
    requires LoadedAll(spares[1..], b[SNAPSHOT_SIZE..]) == others
    ensures LoadedAll(spares, b) == [first] + others
  {}

  ghost predicate AllIdle(cs: seq<Calc>) {
    forall c :: c in cs ==> Valid(c) && !c.encoding
  }

  lemma SavedAllStep(cs: seq<Calc>, rest: seq<byte>)
    requires cs != []
    ensures SavedAll(cs) + rest == Saved(cs[0]) + (SavedAll(cs[1..]) + rest)
  {}

  /** Snapshots written back to back load back in order. */
  lemma {:induction false} SnapshotsInOrder(cs: seq<Calc>, spares: seq<Calc>, rest: seq<byte>)
    requires AllIdle(cs) && AllIdle(spares) && |cs| == |spares|
    ensures |SavedAll(cs)| == SNAPSHOT_SIZE * |cs|
    ensures LoadedAll(spares, SavedAll(cs) + rest) == cs
  {
    if cs != [] {
      var first, others := cs[0], cs[1..];
      assert first in cs && spares[0] in spares;
      var tail := SavedAll(others) + rest;
      SnapshotsInOrder(others, spares[1..], rest);
      SnapshotRoundTrip(first, spares[0], tail);
      SavedAllStep(cs, rest);
      LoadedAllStep(spares, SavedAll(cs) + rest, first, others);
    }
  }
}
