/** The checksum calculator as an object, and the two wrappers the host calls it through. */
module Calculator {
  import opened Words
  import opened BitReversal
  import opened Memory
  import C = Checksum

  lemma JoinFive(s: seq<byte>, a: seq<byte>, b: seq<byte>, c: seq<byte>, d: seq<byte>)
    ensures s + a + b + c + d == s + (a + b + c + d)
  {}

  lemma SplitFive(s: seq<byte>)
    requires |s| >= C.SNAPSHOT_SIZE
    ensures s[1..][..4] == s[1..5]
    ensures s[1..][4..][..4] == s[5..9]
    ensures s[1..][4..][4..][..4] == s[9..13]
    ensures s[1..][4..][4..][4..] == s[13..]
  {}

  /** A byte stream: puts append, gets consume from the front. */
  class Stream {
    var bytes: seq<byte>

    constructor ()
      ensures bytes == []
    {
      bytes := [];
    }

    method PutByte(b: byte)
      modifies this
      ensures bytes == old(bytes) + [b]
    {
      bytes := bytes + [b];
    }

    method PutBe32(x: uint32)
      modifies this
      ensures bytes == old(bytes) + BigEndian(x)
    {
      bytes := bytes + BigEndian(x);
    }

    method GetByte() returns (b: byte)
      requires |bytes| >= 1
      modifies this
      ensures b == old(bytes)[0] && bytes == old(bytes)[1..]
    {
      b := bytes[0];
      bytes := bytes[1..];
    }

    method GetBe32() returns (x: uint32)
      requires |bytes| >= 4
      modifies this
      ensures x == FromBigEndian(old(bytes)[..4]) && bytes == old(bytes)[4..]
    {
      x := FromBigEndian(bytes[..4]);
      bytes := bytes[4..];
    }
  }

  class ChecksumCalculator {
    var version: uint32
    var checksumSize: uint32
    var numRead: uint32
    var numWrite: uint32
    var isEncodingChecksum: bool
    var v1BufferTotalLength: uint32

    ghost function State(): C.Calc
      reads this
    {
      C.Calc(version, checksumSize, numRead, numWrite, isEncodingChecksum, v1BufferTotalLength)
    }

    ghost predicate Valid()
      reads this
    {
      C.Valid(State())
    }

    constructor ()
      ensures State() == C.FRESH && Valid()
      ensures version == 0 && checksumSize == 0 && numRead == 0 && numWrite == 0
      ensures !isEncodingChecksum && v1BufferTotalLength == 0
    {
      version := 0;
      checksumSize := C.ByteSize(0);
      numRead := 0;
      numWrite := 0;
      isEncodingChecksum := false;
      v1BufferTotalLength := 0;
    }

    method SetVersion(v: uint32) returns (ok: bool)
      requires Valid()
      modifies this
      ensures Valid() && State() == C.Next(old(State()), C.SetVersion(v))
      ensures C.Flag(ok) == C.Answer(old(State()), C.SetVersion(v))
      ensures ok <==> v <= 1 && !old(isEncodingChecksum)
      ensures version == if ok then v else old(version)
      ensures checksumSize == if version == 1 then 8 else 0
      ensures unchanged(`numRead, `numWrite, `isEncodingChecksum, `v1BufferTotalLength)
    {
      if v > C.MAX_VERSION {
        return false;
      }
      if isEncodingChecksum {
        return false;
      }
      version := v;
      checksumSize := C.ByteSize(v);
      return true;
    }

    method AddBuffer(length: nat)
      requires Valid()
      modifies this
      ensures Valid() && State() == C.Next(old(State()), C.AddBuffer(length))
      ensures isEncodingChecksum
      ensures v1BufferTotalLength == if version == 1 then Wrap(old(v1BufferTotalLength) + length) else 0
      ensures unchanged(`version, `checksumSize, `numRead, `numWrite)
    {
      isEncodingChecksum := true;
      if version == 1 {
        v1BufferTotalLength := Wrap(v1BufferTotalLength + length);
      }
    }

    /** Writes the checksum at position `at` of `output`, where the caller has `room` bytes for it. */
    method WriteChecksum(output: array<byte>, at: nat, room: nat) returns (ok: bool)
      requires Valid()
      requires at + room <= output.Length
      modifies this, output
      ensures Valid() && State() == C.Next(old(State()), C.WriteChecksum(room))
      ensures match C.Answer(old(State()), C.WriteChecksum(room))
        case Emitted(b) => ok && |b| <= room && output[..] == Overwrite(old(output[..]), at, b)
        case Flag(answer) => ok == answer && output[..] == old(output[..])
        case Silent => false
      ensures ok <==> room >= old(checksumSize)
      ensures numWrite == if ok then Wrap(old(numWrite) + 1) else old(numWrite)
      ensures if ok then !isEncodingChecksum && v1BufferTotalLength == 0
              else unchanged(`isEncodingChecksum, `v1BufferTotalLength)
      ensures unchanged(`version, `checksumSize, `numRead)
    {
      if room < checksumSize {
        return false;
      }
      if version == 1 {
        var val := ComputeV1Checksum();
        StoreBytes(output, at, WordBytes(val));
        StoreBytes(output, at + 4, LittleEndian(numWrite));
        OverwriteAppend(old(output[..]), at, WordBytes(val), LittleEndian(numWrite));
      }
      ResetChecksum();
      numWrite := Wrap(numWrite + 1);
      return true;
    }

    method ResetChecksum()
      requires Valid()
      modifies this
      ensures Valid() && State() == C.Next(old(State()), C.ResetChecksum)
      ensures !isEncodingChecksum && v1BufferTotalLength == 0
      ensures unchanged(`version, `checksumSize, `numRead, `numWrite)
    {
      if version == 1 {
        v1BufferTotalLength := 0;
      }
      isEncodingChecksum := false;
    }

    method Validate(expected: seq<byte>) returns (isValid: bool)
      requires Valid()
      modifies this
      ensures Valid() && State() == C.Next(old(State()), C.Validate(expected))
      ensures C.Flag(isValid) == C.Answer(old(State()), C.Validate(expected))
      ensures isValid <==>
        expected == if version == 1
                    then WordBytes(Reversed(Word(old(v1BufferTotalLength)))) + LittleEndian(old(numRead))
                    else []
      ensures !isEncodingChecksum && v1BufferTotalLength == 0
      ensures numRead == Wrap(old(numRead) + 1)
      ensures unchanged(`version, `checksumSize, `numWrite)
    {
      if |expected| != checksumSize {
        numRead := Wrap(numRead + 1);
        ResetChecksum();
        return false;
      }
      if version == 1 {
        var val := ComputeV1Checksum();
        assert checksumSize == 4 + 4;
        isValid := WordBytes(val) == expected[..4] && LittleEndian(numRead) == expected[4..8];
        assert isValid ==> expected == WordBytes(val) + LittleEndian(numRead);
      } else {
        isValid := true;
      }
      numRead := Wrap(numRead + 1);
      ResetChecksum();
    }

    /** The total length with its 32 bits in the opposite order, in five steps. */
    method ComputeV1Checksum() returns (revLen: bv32)
      ensures revLen == Reversed(Word(v1BufferTotalLength))
    {
      revLen := Word(v1BufferTotalLength);
      StagesReverse(revLen);
      revLen := Stage16(revLen);
      revLen := Stage8(revLen);
      revLen := Stage4(revLen);
      revLen := Stage2(revLen);
      revLen := Stage1(revLen);
    }

    method Save(stream: Stream)
      requires Valid() && !isEncodingChecksum
      modifies stream
      ensures stream.bytes == old(stream.bytes) + C.Saved(State())
      ensures checksumSize < 256
    {
      assert version == 1 ==> v1BufferTotalLength == 0;
      assert checksumSize % 256 == checksumSize;
      stream.PutByte(checksumSize % 256);
      stream.PutBe32(version);
      stream.PutBe32(numRead);
      stream.PutBe32(numWrite);
      JoinFive(old(stream.bytes), [checksumSize], BigEndian(version), BigEndian(numRead), BigEndian(numWrite));
    }

    method Load(stream: Stream)
      requires Valid() && !isEncodingChecksum
      requires |stream.bytes| >= C.SNAPSHOT_SIZE
      modifies this, stream
      ensures State() == C.Loaded(old(State()), old(stream.bytes))
      ensures stream.bytes == old(stream.bytes)[C.SNAPSHOT_SIZE..]
      ensures checksumSize == old(stream.bytes)[0]
      ensures unchanged(`isEncodingChecksum, `v1BufferTotalLength)
    {
      assert version == 1 ==> v1BufferTotalLength == 0;
      SplitFive(stream.bytes);
      var size := stream.GetByte();
      checksumSize := size;
      version := stream.GetBe32();
      assert version == FromBigEndian(old(stream.bytes)[1..5]);
      numRead := stream.GetBe32();
      assert numRead == FromBigEndian(old(stream.bytes)[5..9]);
      numWrite := stream.GetBe32();
      assert numWrite == FromBigEndian(old(stream.bytes)[9..13]);
    }
  }

  /** The static entry points of ChecksumCalculatorThreadInfo. */
  class ChecksumCalculatorThreadInfo {
    static method WriteChecksum(calculator: ChecksumCalculator, length: nat, output: array<byte>, at: nat, room: nat)
      returns (ok: bool)
      requires calculator.Valid()
      requires at + room <= output.Length
      modifies calculator, output
      ensures calculator.Valid()
      ensures calculator.State() == C.Next(C.Next(old(calculator.State()), C.AddBuffer(length)), C.WriteChecksum(room))
      ensures match C.Answer(C.Next(old(calculator.State()), C.AddBuffer(length)), C.WriteChecksum(room))
        case Emitted(b) => ok && |b| <= room && output[..] == Overwrite(old(output[..]), at, b)
        case Flag(answer) => ok == answer && output[..] == old(output[..])
        case Silent => false
    {
      calculator.AddBuffer(length);
      ok := calculator.WriteChecksum(output, at, room);
    }

    static method Validate(calculator: ChecksumCalculator, length: nat, checksum: seq<byte>) returns (ok: bool)
      requires calculator.Valid()
      modifies calculator
      ensures calculator.Valid()
      ensures calculator.State() == C.Next(C.Next(old(calculator.State()), C.AddBuffer(length)), C.Validate(checksum))
      ensures C.Flag(ok) == C.Answer(C.Next(old(calculator.State()), C.AddBuffer(length)), C.Validate(checksum))
    {
      calculator.AddBuffer(length);
      ok := calculator.Validate(checksum);
    }
  }
}
