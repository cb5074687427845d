/** DATA and ACK datagrams: the private checksum word, the opcode, the block number, the bytes. */
module TftpPacket {
  import opened Bytes
  import opened Checksum

  const OPCODE_DATA := 3
  const OPCODE_ACK := 4

  /** The bytes of one UDP payload. */
  type datagram = seq<byte>

  datatype Incoming =
    | Rejected  // wrong opcode or too short: the handler sends an error and leaves by longjmp
    | Block(id: word, data: seq<byte>, intact: bool)

  datatype Reply =
    | Refused  // wrong opcode, too short, or a checksum that does not verify
    | Acked(id: word)

  function EncodeData(id: word, data: seq<byte>): datagram
  {
    Seal([0, OPCODE_DATA, Hi(id), Lo(id)] + data)
  }

  function EncodeAck(id: word): datagram
  {
    Seal([0, OPCODE_ACK, Hi(id), Lo(id)])
  }

  /** _recv_packet_mul's guards: the expected opcode, then at least two bytes after the header. */
  predicate Admitted(d: datagram, opcode: nat) {
    |d| >= 6 && Word(d[2], d[3]) == opcode
  }

  /** _recv_data, with the checksum test its caller makes on the raw datagram. */
  function OpenData(d: datagram): Incoming
  {
    if Admitted(d, OPCODE_DATA) then Block(Word(d[4], d[5]), d[6..], ChecksumOf(d) == 0) else Rejected
  }

  /** _recv_ack. */
  function OpenAck(d: datagram): Reply
  {
    if Admitted(d, OPCODE_ACK) && ChecksumOf(d) == 0 then Acked(Word(d[4], d[5])) else Refused
  }

  // ----- The formats, octet by octet -----

  /** DATA: checksum, opcode 3, block number in network order, then the bytes (RFC 1350, section 5). */
  lemma DataFormat(id: word, data: seq<byte>)
    ensures var d := EncodeData(id, data);
            && |d| == |data| + 6 && d[6..] == data
            && d[2] == 0 && d[3] == 3 && d[4] == id / 256 && d[5] == id % 256
  {
    assert EncodeData(id, data)[6..] == data;
  }

  /** ACK: checksum, opcode 4, block number. */
  lemma AckFormat(id: word)
    ensures var d := EncodeAck(id);
            |d| == 6 && d[2] == 0 && d[3] == 4 && d[4] == id / 256 && d[5] == id % 256
  {
  }

  /** Neither is taken for the other. */
  lemma KindsApart(id: word, data: seq<byte>)
    ensures OpenAck(EncodeData(id, data)) == Refused && OpenData(EncodeAck(id)) == Rejected
  {
    DataFormat(id, data);
    AckFormat(id);
  }

  /** A DATA datagram with one word behind the opcode replaced is seen to be damaged, the two zeros excepted. */
  lemma DamagedData(d: datagram, e: datagram, k: nat)
    requires OpenData(d).Block? && OpenData(d).intact && DifferOnlyAt(d, e, k) && 2 <= k < WordCount(d)
    requires WordAt(d, k) != WordAt(e, k) && !ExchangesZeros(WordAt(d, k), WordAt(e, k))
    ensures OpenData(e).Block? && !OpenData(e).intact
  {
    SingleWordError(d, e, k);
    assert WordAt(d, 1) == WordAt(e, 1);
  }

  /** An ACK with one word replaced is refused, the two zeros excepted. */
  lemma DamagedAck(id: word, e: datagram, k: nat)
    requires DifferOnlyAt(EncodeAck(id), e, k) && k < 3
    requires WordAt(EncodeAck(id), k) != WordAt(e, k) && !ExchangesZeros(WordAt(EncodeAck(id), k), WordAt(e, k))
    ensures OpenAck(e) == Refused
  {
    var d := EncodeAck(id);
    SealedVerifies([0, OPCODE_ACK, Hi(id), Lo(id)]);
    SingleWordError(d, e, k);
  }

  /** What a sender seals, the receiving side of the same protocol opens unchanged. */
  lemma DataRoundTrip(id: word, data: seq<byte>)
    ensures OpenData(EncodeData(id, data)) == Block(id, data, true)
  {
    SealedVerifies([0, OPCODE_DATA, Hi(id), Lo(id)] + data);
    WordOfHalves(id);
    assert EncodeData(id, data)[6..] == data;
  }

  lemma DataInjective(id: word, data: seq<byte>, id': word, data': seq<byte>)
    requires EncodeData(id, data) == EncodeData(id', data')
    ensures id == id' && data == data'
  {
    DataRoundTrip(id, data);
    DataRoundTrip(id', data');
  }

  lemma AckRoundTrip(id: word)
    ensures OpenAck(EncodeAck(id)) == Acked(id)
  {
    SealedVerifies([0, OPCODE_ACK, Hi(id), Lo(id)]);
    WordOfHalves(id);
  }
}
