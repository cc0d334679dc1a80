/** The two usage examples in the calculator's header comment, written with the class, and two ends without a version. */
module HeaderExamples {
  import opened Words
  import opened Memory
  import opened Calculator
  import C = Checksum

  /** A sender's calculator in version 1 that has written nothing yet. */
  method NewVersion1() returns (c: ChecksumCalculator)
    ensures fresh(c) && c.Valid() && c.State() == C.Calc(1, 8, 0, 0, false, 0)
  {
    c := new ChecksumCalculator();
    var ok := c.SetVersion(1);
  }

  lemma WrittenBehind(blank: seq<byte>, buf: seq<byte>, checksum: seq<byte>)
    requires |blank| == |buf| + |checksum|
    ensures Overwrite(Overwrite(blank, 0, buf), |buf|, checksum) == buf + checksum
    ensures (buf + checksum)[|buf|..] == checksum
  {}

  /** A message: the buffer, followed by the checksum the encoder writes behind it. */
  method Encoded(encoder: ChecksumCalculator, buf: array<byte>) returns (message: array<byte>)
    requires encoder.Valid() && encoder.version == 1 && !encoder.isEncodingChecksum
    modifies encoder
    ensures encoder.Valid() && fresh(message)
    ensures encoder.State() == old(encoder.State()).(numWrite := Wrap(old(encoder.numWrite) + 1))
    ensures message.Length >= buf.Length
    ensures message[..buf.Length] == buf[..]
    ensures message[buf.Length..] == C.Encode(Wrap(buf.Length), old(encoder.numWrite))
  {
    ghost var checksum := C.Encode(Wrap(buf.Length), encoder.numWrite);
    C.EncodeLength(Wrap(buf.Length), encoder.numWrite);
    hide C.Encode, Wrap, Overwrite;
    message := new byte[buf.Length + C.VERSION_1_CHECKSUM_SIZE];
    WrittenBehind(message[..], buf[..], checksum);
    MemCopy(message, 0, buf, 0, buf.Length);
    encoder.AddBuffer(buf.Length);
    var ok := encoder.WriteChecksum(message, buf.Length, encoder.checksumSize);
  }

  /** Adds and validates a message of a given number. */
  method Judged(decoder: ChecksumCalculator, message: array<byte>, length: nat, ghost number: uint32)
    returns (ok: bool)
    requires decoder.Valid() && decoder.version == 1 && !decoder.isEncodingChecksum
    requires length <= message.Length && message[length..] == C.Encode(Wrap(length), number)
    modifies decoder
    ensures decoder.Valid()
    ensures decoder.State() == old(decoder.State()).(numRead := Wrap(old(decoder.numRead) + 1))
    ensures ok <==> number == old(decoder.numRead)
  {
    C.EncodeInjective(Wrap(length), number, Wrap(length), decoder.numRead);
    hide C.Encode, Wrap;
    decoder.AddBuffer(length);
    ok := decoder.Validate(message[length..]);
  }

  /** A decoder that adds and validates the first message an encoder wrote accepts it. */
  method TestChecksum(buf: array<byte>) returns (ok: bool)
    ensures ok
  {
    var encoder := NewVersion1();
    var message := Encoded(encoder, buf);
    var decoder := NewVersion1();
    ok := Judged(decoder, message, buf.Length, 0);
  }

  /** A decoder that takes the second message first rejects it, and rejects the first message after it. */
  method TestChecksumOrder(buf1: array<byte>, buf2: array<byte>) returns (ok2: bool, ok1: bool)
    ensures !ok2 && !ok1
  {
    hide C.Encode;
    var encoder := NewVersion1();
    var message1 := Encoded(encoder, buf1);
    var message2 := Encoded(encoder, buf2);
    var decoder := NewVersion1();
    ok2 := Judged(decoder, message2, buf2.Length, 1);
    ok1 := Judged(decoder, message1, buf1.Length, 0);
  }

  /** Two ends on which setVersion is never called: no room is needed, no byte is written, and the message, however
      long, is accepted. */
  method TestWithoutVersion(output: array<byte>, length: nat) returns (wrote: bool, ok: bool)
    modifies output
    ensures wrote && ok && output[..] == old(output[..])
  {
    hide C.Encode, Wrap;
    var encoder := new ChecksumCalculator();
    var decoder := new ChecksumCalculator();
    encoder.AddBuffer(length);
    wrote := encoder.WriteChecksum(output, 0, 0);
    decoder.AddBuffer(length);
    ok := decoder.Validate([]);
  }
}
