/**
 * When does the sender transmit the bytes its block numbers promise? fread reads on in every round and
 * never seeks back, so the answer depends on how many rounds there have been, and on where the ACKs
 * have taken the block counter meanwhile.
 */
module TftpRuns {
  import opened Bytes
  import opened TftpPacket
  import opened TftpSender
  import opened TftpAlignment

  // ----- The block counter on its own -----

  /** The counter without the file: all that ACKs act on. */
  function Counter(s: Sender): Sender {
    Sender(s.outer, s.block, 0, [])
  }

  const ORIGIN := Sender(0, 0, 0, [])

  function Counted(c: Config, t: Sender, acks: seq<word>): Sender
    decreases |acks|
  {
    if acks == [] then t else Counted(c, OnAck(c, t, acks[0]), acks[1..])
  }

  /** How many blocks the sender takes for acknowledged after these ACKs. */
  function PositionAfter(c: Config, acks: seq<word>): nat {
    Counted(c, ORIGIN, acks).Position()
  }

  lemma CounterOfRound(c: Config, file: seq<byte>, s: Sender, ack: nat)
    requires s.Valid(c, |file|)
    ensures Counter(NextRound(c, file, s, ack)) == OnAck(c, Counter(s), ack)
    ensures Counter(s).Position() == s.Position()
  {
  }

  // ----- What the buffer holds -----

  lemma NeedIsPositive(c: Config)
    requires c.Valid()
    ensures c.Need() > 0
  {
    MulMonotone(1, c.window, c.blk);
  }

  /** Where the last read that got anything began, once k reads have followed the first. */
  function LastRead(c: Config, size: nat, k: nat): (at: nat)
    requires c.Valid() && size > 0
  {
    NeedIsPositive(c);
    Min(k, (size - 1) / c.Need()) * c.Need()
  }

  lemma LastReadInside(c: Config, size: nat, k: nat)
    requires c.Valid() && size > 0
    ensures LastRead(c, size, k) < size
  {
    NeedIsPositive(c);
    MulMonotone(Min(k, (size - 1) / c.Need()), (size - 1) / c.Need(), c.Need());
  }

  /** While there is file left a read begins where the one before ended; after that it gets nothing. */
  lemma LastReadMoves(c: Config, size: nat, k: nat)
    requires c.Valid() && size > 0
    ensures k * c.Need() < size ==> LastRead(c, size, k) == k * c.Need()
    ensures k * c.Need() >= size ==> k > 0 && LastRead(c, size, k) == LastRead(c, size, k - 1)
  {
    NeedIsPositive(c);
    var need, q := c.Need(), (size - 1) / c.Need();
    assert q * need <= size - 1 < q * need + need;
    if k <= q {
      MulMonotone(k, q, need);
    } else {
      MulMonotone(q + 1, k, need);
      assert (q + 1) * need == q * need + need;
    }
  }

  /** The buffer starts with n bytes of the file from there on. */
  predicate StartsWith(file: seq<byte>, buffer: seq<byte>, at: nat, n: nat) {
    n <= |buffer| && at + n <= |file| && buffer[..n] == file[at..at + n]
  }

  /** How much a read from there gets. */
  function ReadLength(need: nat, size: nat, at: nat): nat {
    if at < size then Min(need, size - at) else 0
  }

  /** The front of the buffer is what that read got; what lies behind is older. */
  predicate Holds(c: Config, file: seq<byte>, k: nat, buffer: seq<byte>)
    requires c.Valid()
  {
    |file| > 0 ==>
      StartsWith(file, buffer, LastRead(c, |file|, k), ReadLength(c.Need(), |file|, LastRead(c, |file|, k)))
  }

  /** The sender after k rounds. */
  ghost predicate Loaded(c: Config, file: seq<byte>, k: nat, s: Sender) {
    s.Valid(c, |file|) && s.offset == Min(|file|, k * c.Need()) && (k > 0 ==> Holds(c, file, k - 1, s.buffer))
  }

  lemma FreshRead(file: seq<byte>, stale: seq<byte>, offset: nat, n: nat)
    requires offset + n <= |file|
    ensures (file[offset..offset + n] + stale)[..n] == file[offset..offset + n]
  {
  }

  lemma EmptyRead(file: seq<byte>, buffer: seq<byte>)
    ensures file[|file|..|file|] + buffer[0..] == buffer
  {
  }

  lemma RefillHolds(c: Config, file: seq<byte>, k: nat, s: Sender)
    requires Loaded(c, file, k, s)
    ensures Holds(c, file, k, Refill(c, file, s).buffer)
  {
    if |file| > 0 {
      LastReadMoves(c, |file|, k);
      LastReadInside(c, |file|, k);
      if k * c.Need() < |file| {
        var n := Min(c.Need(), |file| - s.offset);
        FreshRead(file, s.buffer[n..], s.offset, n);
      } else {
        EmptyRead(file, s.buffer);
      }
    }
  }

  lemma NextOffset(size: nat, at: nat, need: nat)
    ensures Min(size, at) + Min(need, size - Min(size, at)) == Min(size, at + need)
  {
  }

  lemma OffsetAfterRound(c: Config, file: seq<byte>, k: nat, s: Sender)
    requires Loaded(c, file, k, s)
    ensures Refill(c, file, s).offset == Min(|file|, (k + 1) * c.Need())
  {
    NextOffset(|file|, k * c.Need(), c.Need());
    assert (k + 1) * c.Need() == k * c.Need() + c.Need();
  }

  lemma RoundLoads(c: Config, file: seq<byte>, k: nat, s: Sender, ack: word)
    requires Loaded(c, file, k, s)
    ensures Loaded(c, file, k + 1, NextRound(c, file, s, ack))
  {
    RefillHolds(c, file, k, s);
    OffsetAfterRound(c, file, k, s);
  }

  lemma {:induction false} RunLoads(c: Config, file: seq<byte>, k: nat, s: Sender, acks: seq<word>)
    requires Loaded(c, file, k, s)
    ensures Loaded(c, file, k + |acks|, AfterAcks(c, file, s, acks))
    ensures Counter(AfterAcks(c, file, s, acks)) == Counted(c, Counter(s), acks)
    decreases |acks|
  {
    if acks != [] {
      RoundLoads(c, file, k, s, acks[0]);
      CounterOfRound(c, file, s, acks[0]);
      RunLoads(c, file, k + 1, NextRound(c, file, s, acks[0]), acks[1..]);
    }
  }

  lemma StartLoaded(c: Config, file: seq<byte>, garbage: seq<byte>)
    requires c.Valid() && |garbage| == c.Need()
    ensures Loaded(c, file, 0, Start(c, garbage)) && Counter(Start(c, garbage)) == ORIGIN
  {
    assert 0 * c.Need() == 0;
  }

  // ----- When the next window is right -----

  /** No bytes are left to send, or the last read began where the next block does. */
  predicate OnTrack(c: Config, size: nat, k: nat, p: nat)
    requires c.Valid()
  {
    p * c.blk >= size || p * c.blk == LastRead(c, size, k)
  }

  lemma HeldSlot(c: Config, file: seq<byte>, k: nat, buffer: seq<byte>, p: nat, i: nat)
    requires c.Valid() && |buffer| == c.Need() && Holds(c, file, k, buffer) && i < Pending(c, |file|, p)
    requires p * c.blk < |file| && p * c.blk == LastRead(c, |file|, k)
    ensures SlotData(c, buffer, |file|, p, i) == FileBlock(c, file, p + i)
  {
    var at := p * c.blk;
    var n := ReadLength(c.Need(), |file|, at);
    SlotOffset(c, |file|, p, i);
    PartOfHeld(file, buffer, at, n, i * c.blk, BlockLength(c, |file|, p + i));
  }

  lemma PartOfHeld(file: seq<byte>, buffer: seq<byte>, at: nat, n: nat, from: nat, length: nat)
    requires StartsWith(file, buffer, at, n) && from + length <= n
    ensures buffer[from..from + length] == file[at + from..at + from + length]
  {
    var got, want := buffer[from..from + length], file[at + from..at + from + length];
    forall j | 0 <= j < length
      ensures got[j] == want[j]
    {
      assert got[j] == buffer[..n][from + j] == file[at..at + n][from + j] == want[j];
    }
  }

  /** Behind the last byte at most the empty last block is left. */
  lemma EmptySlot(c: Config, file: seq<byte>, buffer: seq<byte>, p: nat, i: nat)
    requires c.Valid() && |buffer| == c.Need() && i < Pending(c, |file|, p) && p * c.blk >= |file|
    ensures SlotData(c, buffer, |file|, p, i) == FileBlock(c, file, p + i)
  {
    BlockStart(c, |file|, p + i);
    MulMonotone(p, p + i, c.blk);
  }

  lemma OnTrackSlot(c: Config, file: seq<byte>, k: nat, buffer: seq<byte>, p: nat, i: nat)
    requires c.Valid() && |buffer| == c.Need() && Holds(c, file, k, buffer) && i < Pending(c, |file|, p)
    requires OnTrack(c, |file|, k, p)
    ensures SlotData(c, buffer, |file|, p, i) == FileBlock(c, file, p + i)
  {
    if p * c.blk < |file| {
      HeldSlot(c, file, k, buffer, p, i);
    } else {
      EmptySlot(c, file, buffer, p, i);
    }
  }

  lemma OnTrackSendsGenuine(c: Config, file: seq<byte>, k: nat, s: Sender)
    requires Loaded(c, file, k, s) && OnTrack(c, |file|, k, s.Position())
    ensures GenuineWindow(c, file, s)
  {
    RefillHolds(c, file, k, s);
    forall i | 0 <= i < Pending(c, |file|, s.Position())
      ensures GenuineSlot(c, file, s, i)
    {
      OnTrackSlot(c, file, k, Refill(c, file, s).buffer, s.Position(), i);
    }
  }

  /** A file that betrays a window read from anywhere but the given place. */
  function Witness(size: nat, at: nat): (f: seq<byte>)
    ensures |f| == size
  {
    seq(size, i => if i == at then 1 else 0)
  }

  lemma FirstByteHeld(c: Config, file: seq<byte>, k: nat, s: Sender)
    requires Loaded(c, file, k, s) && |file| > 0
    ensures LastRead(c, |file|, k) < |file| && |Refill(c, file, s).buffer| > 0
    ensures Refill(c, file, s).buffer[0] == file[LastRead(c, |file|, k)]
  {
    RefillHolds(c, file, k, s);
    LastReadInside(c, |file|, k);
    NeedIsPositive(c);
    var at := LastRead(c, |file|, k);
    var n := ReadLength(c.Need(), |file|, at);
    assert Refill(c, file, s).buffer[..n][0] == file[at..at + n][0];
  }

  lemma OffTrackSendsOther(c: Config, k: nat, s: Sender, size: nat, file: seq<byte>)
    requires Loaded(c, file, k, s) && !OnTrack(c, size, k, s.Position()) && file == Witness(size, s.Position() * c.blk)
    ensures !GenuineWindow(c, file, s)
    ensures |Refill(c, file, s).buffer| > 0 && Refill(c, file, s).buffer[0] != file[s.Position() * c.blk]
  {
    FirstByteHeld(c, file, k, s);
    if GenuineWindow(c, file, s) {
      GenuineFirstByte(c, file, s);
    }
  }

  lemma WindowAfter(c: Config, file: seq<byte>, garbage: seq<byte>, acks: seq<word>)
    requires c.Valid() && |garbage| == c.Need()
    ensures var s := AfterAcks(c, file, Start(c, garbage), acks);
            Loaded(c, file, |acks|, s) && s.Position() == PositionAfter(c, acks)
  {
    StartLoaded(c, file, garbage);
    RunLoads(c, file, 0, Start(c, garbage), acks);
  }

  lemma GenuineOnTrack(c: Config, file: seq<byte>, garbage: seq<byte>, acks: seq<word>)
    requires c.Valid() && |garbage| == c.Need() && OnTrack(c, |file|, |acks|, PositionAfter(c, acks))
    ensures GenuineWindow(c, file, AfterAcks(c, file, Start(c, garbage), acks))
  {
    WindowAfter(c, file, garbage, acks);
    OnTrackSendsGenuine(c, file, |acks|, AfterAcks(c, file, Start(c, garbage), acks));
  }

  lemma OtherOffTrack(c: Config, size: nat, garbage: seq<byte>, acks: seq<word>) returns (file: seq<byte>)
    requires c.Valid() && |garbage| == c.Need() && !OnTrack(c, size, |acks|, PositionAfter(c, acks))
    ensures |file| == size && !GenuineWindow(c, file, AfterAcks(c, file, Start(c, garbage), acks))
  {
    file := Witness(size, PositionAfter(c, acks) * c.blk);
    WindowAfter(c, file, garbage, acks);
    OffTrackSendsOther(c, |acks|, AfterAcks(c, file, Start(c, garbage), acks), size, file);
  }

  /**
   * After any ACKs at all, 16-bit wraps, repeats and stale numbers included, the next window is right
   * for all files of a size if and only if no bytes are left to send, or the last read that got
   * anything began at the block position. Before the end of the file that is so as long as each ACK
   * has covered a whole window; from then on the buffer stays, and what counts is whether the ACKs
   * name its beginning, however often.
   */
  lemma GenuineAfterIff(c: Config, size: nat, garbage: seq<byte>, acks: seq<word>)
    requires c.Valid() && |garbage| == c.Need()
    ensures (forall file: seq<byte> | |file| == size :: GenuineWindow(c, file, AfterAcks(c, file, Start(c, garbage), acks)))
            <==> OnTrack(c, size, |acks|, PositionAfter(c, acks))
  {
    if OnTrack(c, size, |acks|, PositionAfter(c, acks)) {
      forall file: seq<byte> | |file| == size
        ensures GenuineWindow(c, file, AfterAcks(c, file, Start(c, garbage), acks))
      {
        GenuineOnTrack(c, file, garbage, acks);
      }
    } else {
      var file := OtherOffTrack(c, size, garbage, acks);
      assert |file| == size && !GenuineWindow(c, file, AfterAcks(c, file, Start(c, garbage), acks));
    }
  }

  /** A file that one read takes whole goes out right from its beginning, however often that is asked for. */
  lemma HarmlessRepeat(c: Config, size: nat, k: nat)
    requires c.Valid() && size <= c.Need()
    ensures OnTrack(c, size, k, 0)
  {
    NeedIsPositive(c);
    assert 0 * c.blk == 0;
    if size > 0 {
      assert (size - 1) / c.Need() == 0;
      assert 0 * c.Need() == 0;
    }
  }

  /** A wrong window does not make all later ones wrong: four bytes by two, ACKs 0 and then 2. */
  lemma RightAgain()
    ensures var c := Config(1, 2);
            && OnTrack(c, 4, 0, PositionAfter(c, []))
            && !OnTrack(c, 4, 1, PositionAfter(c, [0]))
            && OnTrack(c, 4, 2, PositionAfter(c, [0, 2]))
  {
    var c := Config(1, 2);
    assert [0, 2][1..] == [2] && [2][1..] == [] && [0][1..] == [];
    assert PositionAfter(c, [0]) == Counted(c, OnAck(c, ORIGIN, 0), []).Position() == 0;
    assert PositionAfter(c, [0, 2]) == Counted(c, ORIGIN, [2]).Position() == Counted(c, OnAck(c, ORIGIN, 2), []).Position() == 2;
    assert LastRead(c, 4, 1) == 2 && LastRead(c, 4, 2) == 2;
  }
}
