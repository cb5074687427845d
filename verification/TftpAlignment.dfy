/** What the sender's read buffer holds, against the blocks its numbers promise. */
module TftpAlignment {
  import opened Bytes
  import opened TftpPacket
  import opened TftpSender

  /** The file position has kept up with the block counter. */
  predicate Aligned(c: Config, size: nat, s: Sender) {
    s.offset == Min(size, s.Position() * c.blk)
  }

  /** The datagram sent for block position + i, against the one the file calls for. */
  ghost predicate GenuineSlot(c: Config, file: seq<byte>, s: Sender, i: nat)
    requires s.Valid(c, |file|) && i < Pending(c, |file|, s.Position())
  {
    WindowSlot(c, Refill(c, file, s).buffer, |file|, s.Position(), i) == GenuineDatagram(c, file, s.Position() + i)
  }

  ghost predicate GenuineWindow(c: Config, file: seq<byte>, s: Sender)
    requires s.Valid(c, |file|)
  {
    forall i | 0 <= i < Pending(c, |file|, s.Position()) :: GenuineSlot(c, file, s, i)
  }

  /** A part of what was read, found in the buffer and in the file. */
  lemma PartOfRead(file: seq<byte>, stale: seq<byte>, offset: nat, n: nat, from: nat, length: nat)
    requires offset + n <= |file| && from + length <= n
    ensures (file[offset..offset + n] + stale)[from..from + length] == file[offset + from..offset + from + length]
  {
    var part := file[offset..offset + n];
    var got, want := (part + stale)[from..from + length], file[offset + from..offset + from + length];
    forall k | 0 <= k < length
      ensures got[k] == want[k]
    {
      assert got[k] == part[from + k] == file[offset + (from + k)] == want[k];
    }
  }

  lemma RefilledFrom(c: Config, file: seq<byte>, s: Sender, from: nat, length: nat)
    requires s.Valid(c, |file|) && from + length <= c.Need() && s.offset + from + length <= |file|
    ensures Refill(c, file, s).buffer[from..from + length] == file[s.offset + from..s.offset + from + length]
  {
    var n := Min(c.Need(), |file| - s.offset);
    PartOfRead(file, s.buffer[n..], s.offset, n, from, length);
  }

  lemma SlotOffset(c: Config, size: nat, p: nat, i: nat)
    requires c.Valid() && i < Pending(c, size, p)
    ensures Min(size, p * c.blk) == p * c.blk && p * c.blk + i * c.blk == (p + i) * c.blk
    ensures (p + i) * c.blk + BlockLength(c, size, p + i) <= size
    ensures i * c.blk + BlockLength(c, size, p + i) <= c.Need()
  {
    BlockStart(c, size, p);
    BlockStart(c, size, p + i);
    SliceFits(c, i);
  }

  lemma SlotHoldsFileBlock(c: Config, file: seq<byte>, s: Sender, i: nat)
    requires s.Valid(c, |file|) && Aligned(c, |file|, s) && i < Pending(c, |file|, s.Position())
    ensures SlotData(c, Refill(c, file, s).buffer, |file|, s.Position(), i) == FileBlock(c, file, s.Position() + i)
  {
    SlotOffset(c, |file|, s.Position(), i);
    RefilledFrom(c, file, s, i * c.blk, BlockLength(c, |file|, s.Position() + i));
  }

  /** From an aligned state the whole window carries the file's own blocks. */
  lemma AlignedSendsGenuine(c: Config, file: seq<byte>, s: Sender)
    requires s.Valid(c, |file|) && Aligned(c, |file|, s)
    ensures GenuineWindow(c, file, s)
  {
    forall i | 0 <= i < Pending(c, |file|, s.Position())
      ensures GenuineSlot(c, file, s, i)
    {
      SlotHoldsFileBlock(c, file, s, i);
    }
  }

  lemma SlotFixesData(c: Config, file: seq<byte>, s: Sender, i: nat)
    requires s.Valid(c, |file|) && i < Pending(c, |file|, s.Position()) && GenuineSlot(c, file, s, i)
    ensures SlotData(c, Refill(c, file, s).buffer, |file|, s.Position(), i) == FileBlock(c, file, s.Position() + i)
  {
    var id := (s.Position() + i + 1) % WORD_LIMIT;
    var sent, block := SlotData(c, Refill(c, file, s).buffer, |file|, s.Position(), i), FileBlock(c, file, s.Position() + i);
    assert EncodeData(id, sent) == EncodeData(id, block);
    SameNumberSameData(id, sent, block);
  }

  lemma SameNumberSameData(id: word, data: seq<byte>, data': seq<byte>)
    ensures EncodeData(id, data) == EncodeData(id, data') ==> data == data'
  {
    if EncodeData(id, data) == EncodeData(id, data') {
      DataInjective(id, data, id, data');
    }
  }

  lemma FirstByteOfSlot(c: Config, buffer: seq<byte>, size: nat, p: nat)
    requires c.Valid() && |buffer| == c.Need() && p * c.blk < size
    ensures Pending(c, size, p) > 0 && SlotData(c, buffer, size, p, 0) != []
    ensures SlotData(c, buffer, size, p, 0)[0] == buffer[0]
  {
    BlockStart(c, size, p);
    assert 0 * c.blk == 0;
  }

  lemma FirstByteOfBlock(c: Config, file: seq<byte>, p: nat)
    requires c.Valid() && p * c.blk < |file|
    ensures p < BlockCount(c, |file|) && FileBlock(c, file, p) != []
    ensures FileBlock(c, file, p)[0] == file[p * c.blk]
  {
    BlockStart(c, |file|, p);
  }

  lemma FirstByteSent(c: Config, file: seq<byte>, s: Sender, buffer: seq<byte>)
    requires s.Valid(c, |file|) && s.Position() * c.blk < |file| && |buffer| == c.Need()
    requires Pending(c, |file|, s.Position()) > 0
    requires SlotData(c, buffer, |file|, s.Position(), 0) == FileBlock(c, file, s.Position() + 0)
    ensures buffer[0] == file[s.Position() * c.blk]
  {
    FirstByteOfSlot(c, buffer, |file|, s.Position());
    FirstByteOfBlock(c, file, s.Position());
  }

  /** A genuine window with data to send starts with the file's byte at the block position. */
  lemma GenuineFirstByte(c: Config, file: seq<byte>, s: Sender)
    requires s.Valid(c, |file|) && s.Position() * c.blk < |file| && GenuineWindow(c, file, s)
    ensures |Refill(c, file, s).buffer| > 0 && Refill(c, file, s).buffer[0] == file[s.Position() * c.blk]
  {
    BlockStart(c, |file|, s.Position());
    MulMonotone(1, c.window, c.blk);
    assert GenuineSlot(c, file, s, 0);
    SlotFixesData(c, file, s, 0);
    FirstByteSent(c, file, s, Refill(c, file, s).buffer);
  }

  // ----- Whole runs -----

  function NextRound(c: Config, file: seq<byte>, s: Sender, ack: nat): Sender
    requires s.Valid(c, |file|)
  {
    OnAck(c, Refill(c, file, s), ack)
  }

  /** No ACK is stale when it arrives. */
  ghost predicate InWindow(c: Config, file: seq<byte>, s: Sender, acks: seq<word>)
    requires s.Valid(c, |file|)
    decreases |acks|
  {
    acks == [] || (!StaleAck(c, s, acks[0]) && InWindow(c, file, NextRound(c, file, s, acks[0]), acks[1..]))
  }

  /** Where the sender stands after a round for each ACK. */
  function AfterAcks(c: Config, file: seq<byte>, s: Sender, acks: seq<word>): (t: Sender)
    requires s.Valid(c, |file|)
    ensures t.Valid(c, |file|)
    decreases |acks|
  {
    if acks == [] then s else AfterAcks(c, file, NextRound(c, file, s, acks[0]), acks[1..])
  }

  /** True counts, each within the window that starts at the one before it. */
  predicate CountsInWindow(c: Config, from: nat, counts: seq<nat>)
    decreases |counts|
  {
    counts == [] || (from <= counts[0] <= from + c.window && CountsInWindow(c, counts[0], counts[1..]))
  }

  /** What 16 bits of each count are left on the wire. */
  function WireNumbers(counts: seq<nat>): (acks: seq<word>)
    ensures |acks| == |counts|
  {
    seq(|counts|, i requires 0 <= i < |counts| => counts[i] % WORD_LIMIT)
  }

  lemma UnwrapsOne(c: Config, file: seq<byte>, s: Sender, count: nat)
    requires s.Valid(c, |file|) && s.Position() <= count <= s.Position() + c.window
    ensures !StaleAck(c, s, count % WORD_LIMIT) && NextRound(c, file, s, count % WORD_LIMIT).Position() == count
  {
    AckUnwraps(c, Refill(c, file, s), count);
    AckStaysInWindow(c, Refill(c, file, s), count % WORD_LIMIT);
  }

  /**
   * Over any run in which each ACK stands for a count in the current window, the sender accepts
   * every one and its position is always the true count, through any number of 16-bit wraps.
   */
  lemma {:induction false} PositionTracksCounts(c: Config, file: seq<byte>, s: Sender, counts: seq<nat>)
    requires s.Valid(c, |file|) && CountsInWindow(c, s.Position(), counts)
    ensures InWindow(c, file, s, WireNumbers(counts))
    ensures AfterAcks(c, file, s, WireNumbers(counts)).Position()
            == if counts == [] then s.Position() else counts[|counts| - 1]
    decreases |counts|
  {
    if counts != [] {
      UnwrapsOne(c, file, s, counts[0]);
      PositionTracksCounts(c, file, NextRound(c, file, s, WireNumbers(counts)[0]), counts[1..]);
      assert WireNumbers(counts)[1..] == WireNumbers(counts[1..]);
    }
  }

  lemma {:induction false} PositionNeverFalls(c: Config, file: seq<byte>, s: Sender, acks: seq<word>)
    requires s.Valid(c, |file|) && InWindow(c, file, s, acks)
    ensures s.Position() <= AfterAcks(c, file, s, acks).Position()
    decreases |acks|
  {
    if acks != [] {
      AckStaysInWindow(c, Refill(c, file, s), acks[0]);
      PositionNeverFalls(c, file, NextRound(c, file, s, acks[0]), acks[1..]);
    }
  }

  lemma BytesAfterWindow(c: Config, size: nat, p: nat)
    requires c.Valid() && p < BlockCount(c, size)
    ensures Min(size, p * c.blk + c.Need()) == Min(size, (p + Pending(c, size, p)) * c.blk)
  {
    var count := Pending(c, size, p);
    assert (p + c.window) * c.blk == p * c.blk + c.Need();
    BlockStart(c, size, p + count);
    MulMonotone(p + count, p + c.window, c.blk);
  }

  /** An ACK that covers the window leaves the sender aligned again. */
  lemma CoveredKeepsAligned(c: Config, file: seq<byte>, s: Sender, ack: nat)
    requires s.Valid(c, |file|) && Aligned(c, |file|, s) && s.Position() < BlockCount(c, |file|)
    requires NextRound(c, file, s, ack).Position() == s.Position() + Pending(c, |file|, s.Position())
    ensures Aligned(c, |file|, NextRound(c, file, s, ack))
  {
    BlockStart(c, |file|, s.Position());
    BytesAfterWindow(c, |file|, s.Position());
  }
}
