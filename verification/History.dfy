/** Whole call histories of one calculator: which states they reach, what they count, and what a caller
    can tell apart. */
module History {
  import opened Words
  import opened Checksum

  lemma {:induction false} AfterConcat(c: Calc, xs: seq<Call>, ys: seq<Call>)
    ensures After(c, xs + ys) == After(After(c, xs), ys)
    decreases xs
  {
    if xs == [] {
      assert xs + ys == ys;
    } else {
      assert (xs + ys)[1..] == xs[1..] + ys;
      AfterConcat(Next(c, xs[0]), xs[1..], ys);
    }
  }

  // ---- reachable states ----

  lemma {:induction false} CallsKeepValid(c: Calc, calls: seq<Call>)
    requires Valid(c)
    ensures Valid(After(c, calls))
    decreases calls
  {
    if calls != [] {
      CallsKeepValid(Next(c, calls[0]), calls[1..]);
    }
  }

  function Times(n: nat, call: Call): seq<Call> {
    if n == 0 then [] else [call] + Times(n - 1, call)
  }

  lemma {:induction false} CountReads(c: Calc, n: nat)
    requires c.version == 0 && !c.encoding
    ensures After(c, Times(n, Validate([]))) == c.(numRead := Wrap(c.numRead + n))
    decreases n
  {
    if n != 0 {
      CountReads(Next(c, Validate([])), n - 1);
      WrapAbsorbs(c.numRead + 1, n - 1);
    }
  }

  lemma {:induction false} CountWrites(c: Calc, n: nat)
    requires c.version == 0 && c.checksumSize == 0 && !c.encoding
    ensures After(c, Times(n, WriteChecksum(0))) == c.(numWrite := Wrap(c.numWrite + n))
    decreases n
  {
    if n != 0 {
      CountWrites(Next(c, WriteChecksum(0)), n - 1);
      WrapAbsorbs(c.numWrite + 1, n - 1);
    }
  }

  lemma LastCalls(c: Calc, target: Calc) returns (calls: seq<Call>)
    requires Valid(target) && !c.encoding && c.version == 0 && c.total == 0
    requires c.numRead == target.numRead && c.numWrite == target.numWrite
    ensures After(c, calls) == target
  {
    var c' := Next(c, SetVersion(target.version));
    if target.encoding {
      calls := [SetVersion(target.version), AddBuffer(target.total)];
      assert calls[1..] == [AddBuffer(target.total)];
      assert Next(c', AddBuffer(target.total)) == target;
      assert After(c', [AddBuffer(target.total)]) == target;
    } else {
      calls := [SetVersion(target.version)];
      assert c' == target;
    }
  }

  lemma CountUp(numRead: uint32, numWrite: uint32) returns (calls: seq<Call>)
    ensures After(FRESH, calls) == Calc(0, 0, numRead, numWrite, false, 0)
  {
    var checks, writes := Times(numRead, Validate([])), Times(numWrite, WriteChecksum(0));
    WrapSmall(numRead);
    WrapSmall(numWrite);
    hide Wrap;
    CountReads(FRESH, numRead);
    CountWrites(Calc(0, 0, numRead, 0, false, 0), numWrite);
    AfterConcat(FRESH, checks, writes);
    calls := checks + writes;
  }

  lemma Reaching(c: Calc) returns (calls: seq<Call>)
    requires Valid(c)
    ensures After(FRESH, calls) == c
  {
    var count := CountUp(c.numRead, c.numWrite);
    var last := LastCalls(After(FRESH, count), c);
    AfterConcat(FRESH, count, last);
    calls := count + last;
  }

  /** The invariant is exact: the states some call history leads to are the valid ones, all of them. */
  lemma ReachableIffValid(c: Calc)
    ensures (exists calls :: After(FRESH, calls) == c) <==> Valid(c)
  {
    if Valid(c) {
      var calls := Reaching(c);
    }
    forall calls | After(FRESH, calls) == c
      ensures Valid(c)
    {
      CallsKeepValid(FRESH, calls);
    }
  }

  /** A checksum is 0 or 8 bytes long in every reachable state, so it fits both the longest checksum and the
      one byte a snapshot has for its size; and an idle calculator has no length left over. */
  lemma ReachableBounds(calls: seq<Call>)
    ensures var c := After(FRESH, calls);
      && c.checksumSize == ByteSize(c.version)
      && (c.checksumSize == 0 || c.checksumSize == 8)
      && c.checksumSize <= MAX_CHECKSUM_LENGTH
      && c.checksumSize % 256 == c.checksumSize
      && (!c.encoding ==> c.total == 0)
      && |ChecksumOf(c.version, c.total, c.numWrite)| == c.checksumSize
  {
    CallsKeepValid(FRESH, calls);
  }

  /** A new calculator, on which setVersion is never called, behaves as one without checksums: writing needs no room
      and writes nothing, and nothing validates but nothing. */
  lemma NewCalculatorHasNoChecksum(room: nat, expected: seq<byte>)
    ensures Answer(FRESH, WriteChecksum(room)) == Emitted([])
    ensures Answer(FRESH, Validate(expected)) == Flag(expected == [])
    ensures Next(FRESH, SetVersion(0)) == FRESH
  {}

  // ---- encodings ----

  /** Abandoning a message, in whatever pieces it was added, leaves an idle calculator as it was. */
  lemma AbandoningUndoesAdding(c: Calc, lengths: seq<nat>)
    requires Valid(c) && !c.encoding
    ensures Next(After(c, Adds(lengths)), ResetChecksum) == c
  {
    AddsAccumulate(c, lengths);
  }

  /** From the first buffer of a message on, no change of version succeeds or has any effect, not even to the
      version already in force. */
  lemma NoVersionChangeWhileEncoding(c: Calc, lengths: seq<nat>, v: uint32)
    requires Valid(c) && lengths != []
    ensures var adding := After(c, Adds(lengths));
      Answer(adding, SetVersion(v)) == Flag(false) && Next(adding, SetVersion(v)) == adding
  {
    AddsAccumulate(c, lengths);
  }

  /** Outside an encoding versions 0 and 1 can be selected and no others, and selecting one changes what a checksum
      is, but neither counter. */
  lemma VersionChangeWhenIdle(c: Calc, v: uint32)
    requires Valid(c) && !c.encoding
    ensures Answer(c, SetVersion(v)) == Flag(v == 0 || v == 1)
    ensures var c' := Next(c, SetVersion(v));
      && c'.version == (if v == 0 || v == 1 then v else c.version)
      && c'.checksumSize == (if c'.version == 1 then 8 else 0)
      && c'.numRead == c.numRead && c'.numWrite == c.numWrite && c'.total == 0 && !c'.encoding
  {}

  // ---- counters ----

  /** How many checksums a history writes; a call with too little room writes none. */
  function Written(c: Calc, calls: seq<Call>): nat
    decreases calls
  {
    if calls == [] then 0
    else (if Answer(c, calls[0]).Emitted? then 1 else 0) + Written(Next(c, calls[0]), calls[1..])
  }

  /** How many checksums a history validates, whatever the verdicts. */
  function Checked(calls: seq<Call>): nat {
    if calls == [] then 0 else (if calls[0].Validate? then 1 else 0) + Checked(calls[1..])
  }

  /** The two counters count exactly the successful writes and the validations, mod 2^32. */
  lemma {:induction false} CountersConserved(c: Calc, calls: seq<Call>)
    ensures After(c, calls).numWrite == Wrap(c.numWrite + Written(c, calls))
    ensures After(c, calls).numRead == Wrap(c.numRead + Checked(calls))
    decreases calls
  {
    if calls != [] {
      var c' := Next(c, calls[0]);
      CountersConserved(c', calls[1..]);
      WrapAbsorbs(c.numWrite + 1, Written(c', calls[1..]));
      WrapAbsorbs(c.numRead + 1, Checked(calls[1..]));
    }
  }

  /** The snapshot of a history: the size of its version's checksum, the version, how many validations were made, and
      how many checksums were written, mod 2^32, each number with its most significant byte first. */
  lemma SnapshotOfHistory(calls: seq<Call>)
    requires !After(FRESH, calls).encoding
    ensures var b: seq<int>, c := Saved(After(FRESH, calls)), After(FRESH, calls);
      && |b| == 13
      && b[0] == |ChecksumOf(c.version, c.total, c.numWrite)| == (if c.version == 1 then 8 else 0)
      && 0x100_0000 * b[1] + 0x1_0000 * b[2] + 0x100 * b[3] + b[4] == c.version
      && 0x100_0000 * b[5] + 0x1_0000 * b[6] + 0x100 * b[7] + b[8] == Wrap(Checked(calls))
      && 0x100_0000 * b[9] + 0x1_0000 * b[10] + 0x100 * b[11] + b[12] == Wrap(Written(FRESH, calls))
  {
    ReachableBounds(calls);
    CallsKeepValid(FRESH, calls);
    CountersConserved(FRESH, calls);
    SnapshotLayout(After(FRESH, calls));
    hide Saved, After, Wrap, Encode;
  }

  /** Any number of writes without enough room change nothing: a later write with enough room emits the same
      bytes and leaves the same state as if they had not happened. */
  lemma {:induction false} ShortWritesChangeNothing(c: Calc, short: nat, times: nat, room: nat)
    requires short < c.checksumSize <= room
    ensures After(c, Times(times, WriteChecksum(short))) == c
    ensures After(c, Times(times, WriteChecksum(short)) + [WriteChecksum(room)]) == Next(c, WriteChecksum(room))
    ensures Answer(c, WriteChecksum(short)) == Flag(false)
    decreases times
  {
    if times != 0 {
      ShortWritesChangeNothing(c, short, times - 1, room);
    }
    AfterConcat(c, Times(times, WriteChecksum(short)), [WriteChecksum(room)]);
    assert After(c, [WriteChecksum(room)]) == Next(c, WriteChecksum(room));
  }

  /** The wrapper adds the message before it tries to write, and a failed write leaves it added. The calculator
      is idle again exactly when there was room, and repeating the wrapper call after a failure emits the
      checksum of the message only when its length is a multiple of 2^32. */
  lemma WrapperNeedsRoom(c: Calc, length: nat, short: nat, room: nat)
    requires Valid(c) && !c.encoding && room >= c.checksumSize
    ensures After(c, [AddBuffer(length), WriteChecksum(short)]).encoding <==> short < c.checksumSize
    ensures short < c.checksumSize ==>
      var once := Next(c, AddBuffer(length));
      var again := Next(After(c, [AddBuffer(length), WriteChecksum(short)]), AddBuffer(length));
      Answer(again, WriteChecksum(room)) == Answer(once, WriteChecksum(room)) <==> Wrap(length) == 0
  {
    var once := Next(c, AddBuffer(length));
    TwoCalls(c, AddBuffer(length), WriteChecksum(short));
    if short < c.checksumSize {
      AddedTwice(c, length);
      TotalDecides(once, Next(once, AddBuffer(length)), room, []);
    }
  }

  lemma TwoCalls(c: Calc, a: Call, b: Call)
    ensures After(c, [a, b]) == Next(Next(c, a), b)
  {
    assert [a, b][1..] == [b];
    assert After(Next(c, a), [b]) == Next(Next(c, a), b);
  }

  lemma AddedTwice(c: Calc, length: nat)
    requires Valid(c) && c.version == 1 && !c.encoding
    ensures var once := Next(c, AddBuffer(length));
      var twice := Next(once, AddBuffer(length));
      && Valid(once) && Valid(twice) && twice == once.(total := twice.total)
      && (twice.total == once.total <==> Wrap(length) == 0)
  {
    WrapAbsorbs(length, length);
    WrapOffsets(length, length, 0);
  }

  // ---- what a caller can observe ----

  /** Calls whose answers tell two different valid states apart. */
  function Probe(c: Calc, d: Calc): seq<Call> {
    if c.encoding != d.encoding then [SetVersion(0)]
    else if c.version != d.version then [Validate([])]
    else if c.total != d.total then [WriteChecksum(8)]
    else if c.numWrite != d.numWrite then [ResetChecksum, SetVersion(1), WriteChecksum(8)]
    else [ResetChecksum, SetVersion(1), Validate(Encode(0, c.numRead))]
  }

  lemma OneAnswer(c: Calc, a: Call)
    ensures Answers(c, [a]) == [Answer(c, a)]
  {}

  lemma ThirdAnswer(c: Calc, a: Call, b: Call, last: Call)
    ensures |Answers(c, [a, b, last])| == 3
    ensures Answers(c, [a, b, last])[2] == Answer(Next(Next(c, a), b), last)
  {
    var c1, c2 := Next(c, a), Next(Next(c, a), b);
    assert [a, b, last][1..] == [b, last] && [b, last][1..] == [last];
    OneAnswer(c2, last);
    assert Answers(c1, [b, last]) == [Answer(c1, b)] + Answers(c2, [last]);
  }

  lemma ProbeDistinguishes(c: Calc, d: Calc)
    requires Valid(c) && Valid(d) && c != d
    ensures Answers(c, Probe(c, d)) != Answers(d, Probe(c, d))
  {
    if c.encoding != d.encoding {
      OneAnswer(c, SetVersion(0));
      OneAnswer(d, SetVersion(0));
    } else if c.version != d.version {
      OneAnswer(c, Validate([]));
      OneAnswer(d, Validate([]));
    } else if c.total != d.total {
      OneAnswer(c, WriteChecksum(8));
      OneAnswer(d, WriteChecksum(8));
      EncodeInjective(c.total, c.numWrite, d.total, d.numWrite);
    } else if c.numWrite != d.numWrite {
      ThirdAnswer(c, ResetChecksum, SetVersion(1), WriteChecksum(8));
      ThirdAnswer(d, ResetChecksum, SetVersion(1), WriteChecksum(8));
      EncodeInjective(0, c.numWrite, 0, d.numWrite);
    } else {
      ThirdAnswer(c, ResetChecksum, SetVersion(1), Validate(Encode(0, c.numRead)));
      ThirdAnswer(d, ResetChecksum, SetVersion(1), Validate(Encode(0, c.numRead)));
      EncodeInjective(0, c.numRead, 0, d.numRead);
    }
  }

  /** No call history tells c from d. */
  ghost predicate Indistinguishable(c: Calc, d: Calc) {
    forall calls :: Answers(c, calls) == Answers(d, calls)
  }

  /** The fields a snapshot records are exactly what callers of idle calculators can observe: after loading
      c's snapshot into any idle calculator, the result answers every call history as c does, and two
      calculators that save different bytes are told apart by some history. */
  lemma SnapshotIsFullyAbstract(c: Calc, d: Calc, spare: Calc)
    requires Valid(c) && !c.encoding
    requires Valid(d) && !d.encoding
    requires Valid(spare) && !spare.encoding
    ensures Indistinguishable(Loaded(spare, Saved(c)), c)
    ensures Indistinguishable(c, d) <==> Saved(c) == Saved(d)
  {
    SnapshotRoundTrip(c, spare, []);
    SnapshotRoundTrip(d, spare, []);
    assert Saved(c) + [] == Saved(c) && Saved(d) + [] == Saved(d);
    if c != d {
      ProbeDistinguishes(c, d);
    }
  }

  lemma DifferentIsDistinguishable(c: Calc, d: Calc)
    requires Valid(c) && Valid(d) && c != d
    ensures !Indistinguishable(c, d)
  {
    ProbeDistinguishes(c, d);
  }

  lemma CountingIsVisible(n: uint32)
    ensures Wrap(n + 1) != n
  {}

  /** Version 0 is not as if there were no checksum. Only the empty checksum validates; an added buffer keeps
      setVersion from succeeding until it is written, validated or abandoned; and some call history notices every
      write, every validation, and the first buffer added to an idle calculator. */
  lemma VersionZeroIsNotInert(c: Calc, length: nat, room: nat, expected: seq<byte>, v: uint32)
    requires Valid(c) && c.version == 0
    ensures Answer(c, Validate(expected)) == Flag(true) <==> expected == []
    ensures Next(Next(c, WriteChecksum(room)), Validate(expected)) ==
            c.(encoding := false, numWrite := Wrap(c.numWrite + 1), numRead := Wrap(c.numRead + 1))
    ensures Answer(Next(c, AddBuffer(length)), SetVersion(v)) == Flag(false)
    ensures Next(Next(c, AddBuffer(length)), ResetChecksum) == c.(encoding := false)
    ensures !Indistinguishable(Next(c, WriteChecksum(room)), c)
    ensures !Indistinguishable(Next(c, Validate(expected)), c)
    ensures Indistinguishable(Next(c, AddBuffer(length)), c) <==> c.encoding
  {
    hide Wrap, Encode, Indistinguishable;
    CountingIsVisible(c.numWrite);
    CountingIsVisible(c.numRead);
    DifferentIsDistinguishable(Next(c, WriteChecksum(room)), c);
    DifferentIsDistinguishable(Next(c, Validate(expected)), c);
    if c.encoding {
      SameIsIndistinguishable(c);
      assert Next(c, AddBuffer(length)) == c;
    } else {
      DifferentIsDistinguishable(Next(c, AddBuffer(length)), c);
    }
  }

  lemma SameIsIndistinguishable(c: Calc)
    ensures Indistinguishable(c, c)
  {}
}
