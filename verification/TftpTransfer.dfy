/** The sender and the receiver joined by a network. */
module TftpTransfer {
  import opened Bytes
  import opened TftpPacket
  import opened TftpSender
  import opened TftpAlignment
  import opened TftpReceiver

  /** Datagrams of the blocks from .. from + count of the file. */
  function GenuineRun(c: Config, file: seq<byte>, from: nat, count: nat): (w: seq<datagram>)
    requires c.Valid() && from + count <= BlockCount(c, |file|)
    ensures |w| == count
  {
    seq(count, i requires 0 <= i < count => GenuineDatagram(c, file, from + i))
  }

  lemma GenuineRunGrows(c: Config, file: seq<byte>, p: nat, count: nat)
    requires c.Valid() && p + count <= BlockCount(c, |file|)
    ensures GenuineRun(c, file, 0, p) + GenuineRun(c, file, p, count) == GenuineRun(c, file, 0, p + count)
  {
  }

  lemma AlignedSlot(c: Config, file: seq<byte>, s: Sender, i: nat)
    requires s.Valid(c, |file|) && GenuineWindow(c, file, s) && i < Pending(c, |file|, s.Position())
    ensures RoundWindow(c, file, s)[i] == GenuineDatagram(c, file, s.Position() + i)
  {
    assert GenuineSlot(c, file, s, i);
  }

  lemma RunEntry(c: Config, file: seq<byte>, from: nat, count: nat, i: nat)
    requires c.Valid() && from + count <= BlockCount(c, |file|) && i < count
    ensures GenuineRun(c, file, from, count)[i] == GenuineDatagram(c, file, from + i)
  {
  }

  lemma AlignedEntry(c: Config, file: seq<byte>, s: Sender, sent: seq<datagram>, run: seq<datagram>, i: nat)
    requires s.Valid(c, |file|) && GenuineWindow(c, file, s) && i < Pending(c, |file|, s.Position())
    requires sent == RoundWindow(c, file, s) && run == GenuineRun(c, file, s.Position(), Pending(c, |file|, s.Position()))
    ensures sent[i] == run[i]
  {
    AlignedSlot(c, file, s, i);
    RunEntry(c, file, s.Position(), Pending(c, |file|, s.Position()), i);
  }

  lemma GenuineWindowIsRun(c: Config, file: seq<byte>, s: Sender)
    requires s.Valid(c, |file|) && GenuineWindow(c, file, s) && s.Position() < BlockCount(c, |file|)
    ensures RoundWindow(c, file, s) == GenuineRun(c, file, s.Position(), Pending(c, |file|, s.Position()))
  {
    var sent, run := RoundWindow(c, file, s), GenuineRun(c, file, s.Position(), Pending(c, |file|, s.Position()));
    forall i | 0 <= i < |sent|
      ensures sent[i] == run[i]
    {
      AlignedEntry(c, file, s, sent, run, i);
    }
  }

  /** From an aligned state the window is the next run of the file's own blocks. */
  lemma AlignedWindow(c: Config, file: seq<byte>, s: Sender)
    requires s.Valid(c, |file|) && Aligned(c, |file|, s) && s.Position() < BlockCount(c, |file|)
    ensures RoundWindow(c, file, s) == GenuineRun(c, file, s.Position(), Pending(c, |file|, s.Position()))
  {
    AlignedSendsGenuine(c, file, s);
    GenuineWindowIsRun(c, file, s);
  }

  /** Where a running receiver stands after the next count blocks arrive in order. */
  function Fed(c: Config, file: seq<byte>, r: Receiver, count: nat): Receiver
    requires c.Valid() && r.lastId + count <= 65535
  {
    var last := r.lastId + count;
    var full := r.slot + count >= c.window || last == BlockCount(c, |file|);
    Receiver(last, if full then 0 else r.slot + count, Prefix(c, file, last),
             if full then r.acks + [last] else r.acks,
             if last == BlockCount(c, |file|) then Completed else Running)
  }

  lemma FedOne(c: Config, file: seq<byte>, r: Receiver, d: datagram)
    requires c.Valid() && r.status == Running && r.lastId < BlockCount(c, |file|)
    requires r.written == Prefix(c, file, r.lastId) && Carries(c, file, d, r.lastId) && r.lastId < 65535
    ensures RecvStep(c, r, d) == Fed(c, file, r, 1)
  {
    PrefixGrows(c, file, r.lastId);
    OnlyLastBlockIsShort(c, |file|, r.lastId);
  }

  lemma FedTwice(c: Config, file: seq<byte>, r: Receiver, count: nat)
    requires c.Valid() && r.slot + 1 + count <= c.window && count > 0
    requires r.lastId + 1 + count <= Min(BlockCount(c, |file|), 65535)
    ensures Fed(c, file, Fed(c, file, r, 1), count) == Fed(c, file, r, count + 1)
  {
  }

  lemma {:induction false} FeedInOrder(c: Config, file: seq<byte>, r: Receiver, w: seq<datagram>)
    requires c.Valid() && r.status == Running && w != [] && r.slot + |w| <= c.window
    requires r.lastId + |w| <= Min(BlockCount(c, |file|), 65535) && r.written == Prefix(c, file, r.lastId)
    requires forall i | 0 <= i < |w| :: Carries(c, file, w[i], r.lastId + i)
    ensures RecvAll(c, r, w) == Fed(c, file, r, |w|)
    decreases |w|
  {
    FedOne(c, file, r, w[0]);
    var t := Fed(c, file, r, 1);
    if |w| > 1 {
      FedTwice(c, file, r, |w| - 1);
      forall i | 0 <= i < |w| - 1
        ensures Carries(c, file, w[1..][i], t.lastId + i)
      {
        assert w[1..][i] == w[i + 1] && Carries(c, file, w[i + 1], r.lastId + (i + 1));
      }
      FeedInOrder(c, file, t, w[1..]);
    }
  }

  lemma FeedGenuine(c: Config, file: seq<byte>, r: Receiver, count: nat)
    requires c.Valid() && r.status == Running && count > 0 && r.slot + count <= c.window
    requires r.lastId + count <= Min(BlockCount(c, |file|), 65535) && r.written == Prefix(c, file, r.lastId)
    ensures RecvAll(c, r, GenuineRun(c, file, r.lastId, count)) == Fed(c, file, r, count)
  {
    var w := GenuineRun(c, file, r.lastId, count);
    forall i | 0 <= i < count
      ensures Carries(c, file, w[i], r.lastId + i)
    {
      GenuineCarries(c, file, r.lastId + i);
    }
    FeedInOrder(c, file, r, w);
  }

  // ----- Lossless, in-order delivery -----

  /** Both ends and everything the sender has put on the wire. */
  datatype Link = Link(s: Sender, r: Receiver, log: seq<datagram>, halted: bool)

  /**
   * One round: the window reaches the receiver complete and in order, and the ACK it answers with
   * reaches the sender. Without an ACK both sides wait for ever.
   */
  function LinkRound(c: Config, file: seq<byte>, l: Link): (m: Link)
    requires l.s.Valid(c, |file|)
    ensures m.s.Valid(c, |file|)
  {
    var w := RoundWindow(c, file, l.s);
    if l.halted || w == [] then l.(halted := true)
    else
      var r := RecvAll(c, l.r, w);
      var t := Refill(c, file, l.s);
      if |r.acks| <= |l.r.acks| then Link(t, r, l.log + w, true)
      else
        var ack := r.acks[|r.acks| - 1];
        match OpenAck(EncodeAck(ack))
        case Refused => Link(t, r, l.log + w, true)
        case Acked(id) => Link(OnAck(c, t, id), r, l.log + w, false)
  }

  function Rounds(c: Config, file: seq<byte>, garbage: seq<byte>, k: nat): (l: Link)
    requires c.Valid() && |garbage| == c.Need()
    ensures l.s.Valid(c, |file|)
  {
    if k == 0 then Link(Start(c, garbage), INITIAL, [], false)
    else LinkRound(c, file, Rounds(c, file, garbage, k - 1))
  }

  /** Both ends agree on how many blocks have been moved, and exactly those are on the wire's log. */
  ghost predicate InStep(c: Config, file: seq<byte>, l: Link)
    requires l.s.Valid(c, |file|)
  {
    && !l.halted
    && l.r.lastId <= BlockCount(c, |file|)
    && l.s.Position() == l.r.lastId && Aligned(c, |file|, l.s)
    && l.r.slot == 0 && l.r.written == Prefix(c, file, l.r.lastId)
    && l.r.status == (if l.r.lastId == BlockCount(c, |file|) then Completed else Running)
    && l.log == GenuineRun(c, file, 0, l.r.lastId)
  }

  lemma AlignedAfterFullAck(c: Config, file: seq<byte>, s: Sender)
    requires s.Valid(c, |file|) && Aligned(c, |file|, s) && s.Position() < BlockCount(c, |file|)
    ensures var next := s.Position() + Pending(c, |file|, s.Position());
            var t := OnAck(c, Refill(c, file, s), next % WORD_LIMIT);
            t.Position() == next && Aligned(c, |file|, t)
  {
    var p := s.Position();
    var next := p + Pending(c, |file|, p);
    AckUnwraps(c, Refill(c, file, s), next);
    CoveredKeepsAligned(c, file, s, next % WORD_LIMIT);
  }

  lemma LinkRoundAcked(c: Config, file: seq<byte>, l: Link, w: seq<datagram>, r: Receiver, ack: nat)
    requires l.s.Valid(c, |file|) && !l.halted && ack < WORD_LIMIT
    requires w == RoundWindow(c, file, l.s) && w != []
    requires r == RecvAll(c, l.r, w) && r.acks == l.r.acks + [ack]
    ensures LinkRound(c, file, l) == Link(OnAck(c, Refill(c, file, l.s), ack), r, l.log + w, false)
  {
    AckRoundTrip(ack);
  }

  /** A whole window, or what is left of the file, leaves the receiver at a window's start with one ACK sent. */
  lemma FedWindow(c: Config, file: seq<byte>, r: Receiver, count: nat)
    requires c.Valid() && r.slot == 0 && r.lastId + count <= 65535
    requires r.lastId < BlockCount(c, |file|) && count == Pending(c, |file|, r.lastId)
    ensures var t := Fed(c, file, r, count);
            && t.lastId == r.lastId + count && t.slot == 0 && t.written == Prefix(c, file, t.lastId)
            && t.acks == r.acks + [t.lastId]
            && t.status == (if t.lastId == BlockCount(c, |file|) then Completed else Running)
  {
  }

  lemma ReceiverOfRound(c: Config, file: seq<byte>, l: Link, count: nat)
    requires l.s.Valid(c, |file|) && InStep(c, file, l) && l.r.lastId < BlockCount(c, |file|)
    requires count == Pending(c, |file|, l.r.lastId) && l.r.lastId + count <= 65535
    ensures RecvAll(c, l.r, RoundWindow(c, file, l.s)) == Fed(c, file, l.r, count)
  {
    AlignedWindow(c, file, l.s);
    FeedGenuine(c, file, l.r, count);
  }

  lemma LogOfRound(c: Config, file: seq<byte>, l: Link, count: nat)
    requires l.s.Valid(c, |file|) && InStep(c, file, l) && l.r.lastId < BlockCount(c, |file|)
    requires count == Pending(c, |file|, l.r.lastId)
    ensures l.log + RoundWindow(c, file, l.s) == GenuineRun(c, file, 0, l.r.lastId + count)
  {
    AlignedWindow(c, file, l.s);
    GenuineRunGrows(c, file, l.r.lastId, count);
  }

  lemma SenderOfRound(c: Config, file: seq<byte>, l: Link, count: nat)
    requires l.s.Valid(c, |file|) && InStep(c, file, l) && l.r.lastId < BlockCount(c, |file|)
    requires count == Pending(c, |file|, l.r.lastId) && l.r.lastId + count <= 65535
    ensures var t := OnAck(c, Refill(c, file, l.s), l.r.lastId + count);
            t.Position() == l.r.lastId + count && Aligned(c, |file|, t)
  {
    AlignedAfterFullAck(c, file, l.s);
    assert (l.r.lastId + count) % WORD_LIMIT == l.r.lastId + count;
  }

  lemma NowInStep(c: Config, file: seq<byte>, s: Sender, r: Receiver, log: seq<datagram>)
    requires s.Valid(c, |file|) && s.Position() == r.lastId <= BlockCount(c, |file|) && Aligned(c, |file|, s)
    requires r.slot == 0 && r.written == Prefix(c, file, r.lastId)
    requires r.status == (if r.lastId == BlockCount(c, |file|) then Completed else Running)
    requires log == GenuineRun(c, file, 0, r.lastId)
    ensures InStep(c, file, Link(s, r, log, false))
  {
  }

  /** The receiver after a round, told by its fields alone. */
  lemma RoundReceived(c: Config, file: seq<byte>, l: Link, count: nat) returns (r: Receiver)
    requires l.s.Valid(c, |file|) && InStep(c, file, l) && l.r.lastId < BlockCount(c, |file|)
    requires count == Pending(c, |file|, l.r.lastId) && l.r.lastId + count <= 65535
    ensures RoundWindow(c, file, l.s) != [] && r == RecvAll(c, l.r, RoundWindow(c, file, l.s))
    ensures r.lastId == l.r.lastId + count && r.slot == 0 && r.written == Prefix(c, file, r.lastId)
    ensures r.acks == l.r.acks + [r.lastId]
    ensures r.status == if r.lastId == BlockCount(c, |file|) then Completed else Running
  {
    ReceiverOfRound(c, file, l, count);
    FedWindow(c, file, l.r, count);
    r := Fed(c, file, l.r, count);
  }

  lemma RoundYields(c: Config, file: seq<byte>, l: Link, count: nat, r: Receiver)
    requires l.s.Valid(c, |file|) && InStep(c, file, l) && l.r.lastId < BlockCount(c, |file|)
    requires count == Pending(c, |file|, l.r.lastId) && r.lastId == l.r.lastId + count <= 65535
    requires r.slot == 0 && r.written == Prefix(c, file, r.lastId)
    requires r.status == if r.lastId == BlockCount(c, |file|) then Completed else Running
    ensures InStep(c, file, Link(OnAck(c, Refill(c, file, l.s), r.lastId), r, l.log + RoundWindow(c, file, l.s), false))
  {
    SenderOfRound(c, file, l, count);
    LogOfRound(c, file, l, count);
    NowInStep(c, file, OnAck(c, Refill(c, file, l.s), r.lastId), r, l.log + RoundWindow(c, file, l.s));
  }

  /** A round from a link in step, as long as the block numbers fit 16 bits, stays in step. */
  lemma RoundInStep(c: Config, file: seq<byte>, l: Link)
    requires l.s.Valid(c, |file|) && InStep(c, file, l) && l.r.lastId < BlockCount(c, |file|)
    requires l.r.lastId + Pending(c, |file|, l.r.lastId) <= 65535
    ensures InStep(c, file, LinkRound(c, file, l))
    ensures LinkRound(c, file, l).r.lastId == l.r.lastId + Pending(c, |file|, l.r.lastId)
  {
    var count := Pending(c, |file|, l.r.lastId);
    var r := RoundReceived(c, file, l, count);
    LinkRoundAcked(c, file, l, RoundWindow(c, file, l.s), r, r.lastId);
    RoundYields(c, file, l, count, r);
  }

  /** How many blocks have been moved after k undisturbed rounds. */
  function Moved(c: Config, size: nat, k: nat): nat
    requires c.Valid()
  {
    Min(k * c.window, BlockCount(c, size))
  }

  lemma MovedNext(c: Config, size: nat, k: nat)
    requires c.Valid() && Moved(c, size, k) < BlockCount(c, size)
    ensures Moved(c, size, k + 1) == Moved(c, size, k) + Pending(c, size, Moved(c, size, k))
  {
    assert (k + 1) * c.window == k * c.window + c.window;
  }

  lemma StartInStep(c: Config, file: seq<byte>, garbage: seq<byte>)
    requires c.Valid() && |garbage| == c.Need()
    ensures InStep(c, file, Rounds(c, file, garbage, 0)) && Rounds(c, file, garbage, 0).r == INITIAL
  {
    assert 0 * c.blk == 0;
  }

  lemma {:induction false} RoundsInStep(c: Config, file: seq<byte>, garbage: seq<byte>, k: nat)
    requires c.Valid() && |garbage| == c.Need() && Moved(c, |file|, k) <= 65535
    requires k > 0 ==> Moved(c, |file|, k - 1) < BlockCount(c, |file|)
    ensures InStep(c, file, Rounds(c, file, garbage, k))
    ensures Rounds(c, file, garbage, k).r.lastId == Moved(c, |file|, k)
  {
    if k == 0 {
      StartInStep(c, file, garbage);
      assert 0 * c.window == 0;
    } else {
      MovedNext(c, |file|, k - 1);
      if k > 1 {
        MulMonotone(k - 2, k - 1, c.window);
      }
      RoundsInStep(c, file, garbage, k - 1);
      RoundInStep(c, file, Rounds(c, file, garbage, k - 1));
    }
  }

  /** The round in which the last block goes out. */
  function LastRound(c: Config, size: nat): (k: nat)
    requires c.Valid()
    ensures k > 0 && Moved(c, size, k) == BlockCount(c, size)
    ensures Moved(c, size, k - 1) < BlockCount(c, size)
  {
    var n := BlockCount(c, size);
    var k := (n - 1) / c.window + 1;
    assert k * c.window == (n - 1) / c.window * c.window + c.window;
    assert (n - 1) / c.window * c.window <= n - 1 < (n - 1) / c.window * c.window + c.window;
    k
  }

  lemma InStepAtEnd(c: Config, file: seq<byte>, l: Link)
    requires l.s.Valid(c, |file|) && InStep(c, file, l) && l.r.lastId == BlockCount(c, |file|)
    ensures l.r.status == Completed && l.r.written == file
    ensures l.log == GenuineRun(c, file, 0, BlockCount(c, |file|)) && RoundWindow(c, file, l.s) == []
  {
    PrefixOfAll(c, file);
  }

  /** The products of round j all fit. */
  ghost predicate RoundFits(c: Config, file: seq<byte>, garbage: seq<byte>, j: nat)
    requires c.Valid() && |garbage| == c.Need()
  {
    Fits(Products(c, |file|, Rounds(c, file, garbage, j).s.Position()))
  }

  /** So do those of all rounds up to k: the C code's arithmetic is defined that far. */
  ghost predicate Defined(c: Config, file: seq<byte>, garbage: seq<byte>, k: nat)
    requires c.Valid() && |garbage| == c.Need()
  {
    forall j | 0 <= j <= k :: RoundFits(c, file, garbage, j)
  }

  lemma EarlierRounds(c: Config, size: nat, j: nat)
    requires c.Valid() && j <= LastRound(c, size)
    ensures j > 0 ==> Moved(c, size, j - 1) < BlockCount(c, size)
  {
    if j > 0 {
      MulMonotone(j - 1, LastRound(c, size) - 1, c.window);
    }
  }

  lemma PositionInRound(c: Config, file: seq<byte>, garbage: seq<byte>, j: nat)
    requires c.Valid() && |garbage| == c.Need() && BlockCount(c, |file|) <= 65535 && j <= LastRound(c, |file|)
    ensures Rounds(c, file, garbage, j).s.Position() == Moved(c, |file|, j)
  {
    EarlierRounds(c, |file|, j);
    RoundsInStep(c, file, garbage, j);
  }

  lemma FitsUpToEnd(c: Config, size: nat, p: nat)
    requires c.Valid() && p <= BlockCount(c, size) && BlockCount(c, size) * c.blk < INT_LIMIT
    ensures Fits(Products(c, size, p))
  {
    ProductsBounded(c, size, p);
  }

  lemma FitsAtLeast(c: Config, size: nat, p: nat)
    requires c.Valid() && p >= BlockCount(c, size) && Fits(Products(c, size, p))
    ensures BlockCount(c, size) * c.blk < INT_LIMIT
  {
    MulMonotone(BlockCount(c, size), p, c.blk);
    assert Products(c, size, p)[0] == (p + 0) * c.blk;
  }

  lemma RoundIsDefined(c: Config, file: seq<byte>, garbage: seq<byte>, j: nat)
    requires c.Valid() && |garbage| == c.Need() && BlockCount(c, |file|) <= 65535 && j <= LastRound(c, |file|)
    requires BlockCount(c, |file|) * c.blk < INT_LIMIT
    ensures RoundFits(c, file, garbage, j)
  {
    PositionInRound(c, file, garbage, j);
    FitsUpToEnd(c, |file|, Moved(c, |file|, j));
  }

  lemma LastRoundFits(c: Config, file: seq<byte>, garbage: seq<byte>)
    requires c.Valid() && |garbage| == c.Need() && BlockCount(c, |file|) <= 65535
    requires RoundFits(c, file, garbage, LastRound(c, |file|))
    ensures BlockCount(c, |file|) * c.blk < INT_LIMIT
  {
    PositionInRound(c, file, garbage, LastRound(c, |file|));
    FitsAtLeast(c, |file|, BlockCount(c, |file|));
  }

  /** A whole transfer is defined exactly when the largest product, that of the block count, fits. */
  lemma DefinedIff(c: Config, file: seq<byte>, garbage: seq<byte>)
    requires c.Valid() && |garbage| == c.Need() && BlockCount(c, |file|) <= 65535
    ensures Defined(c, file, garbage, LastRound(c, |file|)) <==> BlockCount(c, |file|) * c.blk < INT_LIMIT
  {
    if BlockCount(c, |file|) * c.blk < INT_LIMIT {
      forall j | 0 <= j <= LastRound(c, |file|)
        ensures RoundFits(c, file, garbage, j)
      {
        RoundIsDefined(c, file, garbage, j);
      }
    } else if Defined(c, file, garbage, LastRound(c, |file|)) {
      LastRoundFits(c, file, garbage);
    }
  }

  /**
   * Send then receive is the identity: over a lossless in-order network, for every file of up to
   * 65535 blocks, every block size and every window, the transfer ends with the receiver's file
   * equal to the sender's, after exactly floor(size / blk) + 1 datagrams, the j-th of which is
   * block j, and the sender's next window is empty, which makes it return. The sender's 32-bit
   * products are all defined exactly when block count times block size is below 2^31.
   */
  lemma LosslessTransfer(c: Config, file: seq<byte>, garbage: seq<byte>)
    requires c.Valid() && |garbage| == c.Need() && BlockCount(c, |file|) <= 65535
    ensures var l := Rounds(c, file, garbage, LastRound(c, |file|));
            && l.r.status == Completed && l.r.written == file
            && l.log == GenuineRun(c, file, 0, BlockCount(c, |file|))
            && RoundWindow(c, file, l.s) == []
    ensures Defined(c, file, garbage, LastRound(c, |file|)) <==> BlockCount(c, |file|) * c.blk < INT_LIMIT
  {
    var k := LastRound(c, |file|);
    RoundsInStep(c, file, garbage, k);
    InStepAtEnd(c, file, Rounds(c, file, garbage, k));
    DefinedIff(c, file, garbage);
  }

  /** Not complete: still in step, or stuck at the last number 16 bits can hold. */
  ghost predicate Unfinished(c: Config, file: seq<byte>, l: Link)
    requires l.s.Valid(c, |file|)
  {
    l.r.status != Completed && (l.r.lastId == 65535 || InStep(c, file, l))
  }

  /** In a longer transfer the receiver ends up at block 65535 and stays there. */
  lemma LongTransferSticks(c: Config, file: seq<byte>, garbage: seq<byte>, k: nat)
    requires c.Valid() && |garbage| == c.Need() && BlockCount(c, |file|) > 65535
    ensures Unfinished(c, file, Rounds(c, file, garbage, k))
  {
    StartInStep(c, file, garbage);
    var i, l := 0, Rounds(c, file, garbage, 0);
    while i < k
      invariant 0 <= i <= k && l == Rounds(c, file, garbage, i) && Unfinished(c, file, l)
    {
      LongRound(c, file, l);
      i, l := i + 1, LinkRound(c, file, l);
    }
  }

  lemma LongRound(c: Config, file: seq<byte>, l: Link)
    requires l.s.Valid(c, |file|) && BlockCount(c, |file|) > 65535 && Unfinished(c, file, l)
    ensures Unfinished(c, file, LinkRound(c, file, l))
  {
    if l.r.lastId == 65535 {
      StuckAfter65535(c, l.r, RoundWindow(c, file, l.s));
    } else if l.r.lastId + Pending(c, |file|, l.r.lastId) <= 65535 {
      RoundInStep(c, file, l);
    } else {
      CrossTheLimit(c, file, l);
    }
  }

  lemma CrossTheLimit(c: Config, file: seq<byte>, l: Link)
    requires l.s.Valid(c, |file|) && InStep(c, file, l) && BlockCount(c, |file|) > 65535
    requires l.r.lastId < 65535 < l.r.lastId + Pending(c, |file|, l.r.lastId)
    ensures LinkRound(c, file, l).r.lastId == 65535 && LinkRound(c, file, l).r.status != Completed
  {
    var p := l.r.lastId;
    var count := Pending(c, |file|, p);
    var head := 65535 - p;
    AlignedWindow(c, file, l.s);
    var w := GenuineRun(c, file, p, count);
    assert w == GenuineRun(c, file, p, head) + w[head..];
    RecvSplit(c, l.r, GenuineRun(c, file, p, head), w[head..]);
    FeedGenuine(c, file, l.r, head);
    StuckAfter65535(c, Fed(c, file, l.r, head), w[head..]);
  }

  /** The receiver has the whole file, the sender returns, and nothing has overflowed on the way. */
  ghost predicate Done(c: Config, file: seq<byte>, garbage: seq<byte>, k: nat)
    requires c.Valid() && |garbage| == c.Need()
  {
    var l := Rounds(c, file, garbage, k);
    l.r.status == Completed && RoundWindow(c, file, l.s) == [] && Defined(c, file, garbage, k)
  }

  /** To see that it is done the sender works out a product at least as large as the block count's. */
  lemma DoneFits(c: Config, file: seq<byte>, garbage: seq<byte>, k: nat)
    requires c.Valid() && |garbage| == c.Need() && Done(c, file, garbage, k)
    ensures BlockCount(c, |file|) * c.blk < INT_LIMIT
  {
    assert RoundFits(c, file, garbage, k);
    FitsAtLeast(c, |file|, Rounds(c, file, garbage, k).s.Position());
  }

  /**
   * The lossless transfer is done after some number of rounds exactly for files of at most 65535
   * blocks whose product with the block size fits 31 bits.
   */
  lemma CompletesIff(c: Config, file: seq<byte>, garbage: seq<byte>)
    requires c.Valid() && |garbage| == c.Need()
    ensures (exists k: nat :: Done(c, file, garbage, k))
            <==> |file| / c.blk + 1 <= 65535 && (|file| / c.blk + 1) * c.blk < INT_LIMIT
  {
    if |file| / c.blk + 1 <= 65535 {
      LosslessTransfer(c, file, garbage);
      if (|file| / c.blk + 1) * c.blk < INT_LIMIT {
        assert Done(c, file, garbage, LastRound(c, |file|));
      }
    }
    forall k: nat | Done(c, file, garbage, k)
      ensures |file| / c.blk + 1 <= 65535 && (|file| / c.blk + 1) * c.blk < INT_LIMIT
    {
      DoneFits(c, file, garbage, k);
      if BlockCount(c, |file|) > 65535 {
        LongTransferSticks(c, file, garbage, k);
      }
    }
  }

  // ----- The two programs as each other's environment -----

  /** The datagrams a receiver's ACKs travel in. */
  function Replies(acks: seq<word>): (d: seq<datagram>)
    ensures |d| == |acks|
  {
    seq(|acks|, i requires 0 <= i < |acks| => EncodeAck(acks[i]))
  }

  lemma SendOneRound(c: Config, file: seq<byte>, s: Sender, ack: word, rest: seq<word>, log: seq<datagram>)
    requires s.Valid(c, |file|) && RoundWindow(c, file, s) != []
    ensures SendRun(c, file, s, Replies([ack] + rest), log)
            == SendRun(c, file, OnAck(c, Refill(c, file, s), ack), Replies(rest), log + RoundWindow(c, file, s))
  {
    AckRoundTrip(ack);
    assert Replies([ack] + rest)[1..] == Replies(rest);
  }

  /** With these ACKs to come, the sender transmits the rest of the file's datagrams and returns. */
  ghost predicate SenderSettles(c: Config, file: seq<byte>, s: Sender, log: seq<datagram>, acks: seq<word>) {
    s.Valid(c, |file|) &&
    SendRun(c, file, s, Replies(acks), log) == (Finished, GenuineRun(c, file, 0, BlockCount(c, |file|)))
  }

  /** Fed the rest of the file's datagrams, the receiver sends these ACKs and completes. */
  ghost predicate ReceiverSettles(c: Config, file: seq<byte>, r: Receiver, acks: seq<word>) {
    c.Valid() && r.lastId <= BlockCount(c, |file|) &&
    var end := RecvAll(c, r, GenuineRun(c, file, r.lastId, BlockCount(c, |file|) - r.lastId));
    end.status == Completed && end.written == file && end.acks == r.acks + acks
  }

  lemma SenderSettled(c: Config, file: seq<byte>, s: Sender, log: seq<datagram>)
    requires s.Valid(c, |file|) && RoundWindow(c, file, s) == []
    requires log == GenuineRun(c, file, 0, BlockCount(c, |file|))
    ensures SenderSettles(c, file, s, log, [])
  {
  }

  lemma SenderStep(c: Config, file: seq<byte>, s: Sender, log: seq<datagram>, ack: word, rest: seq<word>, acks: seq<word>)
    requires s.Valid(c, |file|) && RoundWindow(c, file, s) != [] && acks == [ack] + rest
    requires SenderSettles(c, file, OnAck(c, Refill(c, file, s), ack), log + RoundWindow(c, file, s), rest)
    ensures SenderSettles(c, file, s, log, acks)
  {
    SendOneRound(c, file, s, ack, rest, log);
  }

  /** Blocks from .. up to the last, as the receiver takes them after a whole window of them. */
  lemma RecvOneRound(c: Config, file: seq<byte>, r: Receiver, count: nat)
    requires c.Valid() && r.lastId + count <= BlockCount(c, |file|)
    ensures var n := BlockCount(c, |file|) - r.lastId;
            RecvAll(c, r, GenuineRun(c, file, r.lastId, n))
            == RecvAll(c, RecvAll(c, r, GenuineRun(c, file, r.lastId, count)),
                       GenuineRun(c, file, r.lastId + count, n - count))
  {
    var n := BlockCount(c, |file|) - r.lastId;
    var w, rest := GenuineRun(c, file, r.lastId, count), GenuineRun(c, file, r.lastId + count, n - count);
    assert GenuineRun(c, file, r.lastId, n) == w + rest;
    RecvSplit(c, r, w, rest);
  }

  lemma ThroughRound(c: Config, file: seq<byte>, r: Receiver, count: nat)
    requires c.Valid() && r.lastId < BlockCount(c, |file|) <= 65535 && count == Pending(c, |file|, r.lastId)
    requires r.status == Running && r.slot == 0 && r.written == Prefix(c, file, r.lastId)
    ensures RecvAll(c, r, GenuineRun(c, file, r.lastId, BlockCount(c, |file|) - r.lastId))
            == RecvAll(c, Fed(c, file, r, count),
                       GenuineRun(c, file, r.lastId + count, BlockCount(c, |file|) - (r.lastId + count)))
  {
    FeedGenuine(c, file, r, count);
    RecvOneRound(c, file, r, count);
  }

  lemma ReceiverStep(c: Config, file: seq<byte>, r: Receiver, count: nat, rest: seq<word>, acks: seq<word>)
    requires c.Valid() && r.lastId < BlockCount(c, |file|) <= 65535 && count == Pending(c, |file|, r.lastId)
    requires r.status == Running && r.slot == 0 && r.written == Prefix(c, file, r.lastId)
    requires ReceiverSettles(c, file, Fed(c, file, r, count), rest) && acks == [r.lastId + count] + rest
    ensures ReceiverSettles(c, file, r, acks)
  {
    ThroughRound(c, file, r, count);
    FedWindow(c, file, r, count);
    assert r.acks + [r.lastId + count] + rest == r.acks + acks;
  }

  lemma ReceiverSettled(c: Config, file: seq<byte>, r: Receiver)
    requires c.Valid() && r.lastId == BlockCount(c, |file|) && r.status == Completed && r.written == file
    ensures ReceiverSettles(c, file, r, [])
  {
  }

  /** The ACKs of an undisturbed transfer from block p on: one for each whole window and one for the rest. */
  function AckPlan(c: Config, size: nat, p: nat): seq<word>
    requires c.Valid() && p <= BlockCount(c, size) <= 65535
    decreases BlockCount(c, size) - p
  {
    if p == BlockCount(c, size) then []
    else [p + Pending(c, size, p)] + AckPlan(c, size, p + Pending(c, size, p))
  }

  lemma {:induction false} ReceiverFollowsPlan(c: Config, file: seq<byte>, r: Receiver)
    requires c.Valid() && r.lastId <= BlockCount(c, |file|) <= 65535
    requires r.slot == 0 && r.written == Prefix(c, file, r.lastId)
    requires r.status == if r.lastId == BlockCount(c, |file|) then Completed else Running
    ensures ReceiverSettles(c, file, r, AckPlan(c, |file|, r.lastId))
    decreases BlockCount(c, |file|) - r.lastId
  {
    if r.lastId == BlockCount(c, |file|) {
      PrefixOfAll(c, file);
      ReceiverSettled(c, file, r);
    } else {
      var count := Pending(c, |file|, r.lastId);
      FedWindow(c, file, r, count);
      ReceiverFollowsPlan(c, file, Fed(c, file, r, count));
      ReceiverStep(c, file, r, count, AckPlan(c, |file|, r.lastId + count), AckPlan(c, |file|, r.lastId));
    }
  }

  lemma SenderRound(c: Config, file: seq<byte>, s: Sender, log: seq<datagram>, next: nat)
    requires s.Valid(c, |file|) && Aligned(c, |file|, s) && s.Position() < BlockCount(c, |file|) <= 65535
    requires next == s.Position() + Pending(c, |file|, s.Position()) && log == GenuineRun(c, file, 0, s.Position())
    ensures RoundWindow(c, file, s) != [] && log + RoundWindow(c, file, s) == GenuineRun(c, file, 0, next)
    ensures var t := OnAck(c, Refill(c, file, s), next); t.Position() == next && Aligned(c, |file|, t)
  {
    AlignedWindow(c, file, s);
    GenuineRunGrows(c, file, s.Position(), Pending(c, |file|, s.Position()));
    AlignedAfterFullAck(c, file, s);
  }

  lemma {:induction false} SenderFollowsPlan(c: Config, file: seq<byte>, s: Sender, log: seq<datagram>)
    requires s.Valid(c, |file|) && Aligned(c, |file|, s) && s.Position() <= BlockCount(c, |file|) <= 65535
    requires log == GenuineRun(c, file, 0, s.Position())
    ensures SenderSettles(c, file, s, log, AckPlan(c, |file|, s.Position()))
    decreases BlockCount(c, |file|) - s.Position()
  {
    if s.Position() == BlockCount(c, |file|) {
      SenderSettled(c, file, s, log);
    } else {
      var next := s.Position() + Pending(c, |file|, s.Position());
      SenderRound(c, file, s, log, next);
      SenderFollowsPlan(c, file, OnAck(c, Refill(c, file, s), next), log + RoundWindow(c, file, s));
      SenderStep(c, file, s, log, next, AckPlan(c, |file|, next), AckPlan(c, |file|, s.Position()));
    }
  }

  lemma ReceiverFed(c: Config, file: seq<byte>, start: Receiver, sent: seq<datagram>, r: Receiver)
    requires c.Valid() && BlockCount(c, |file|) <= 65535 && start.lastId == 0 && start.slot == 0
    requires start.written == Prefix(c, file, 0) && start.acks == [] && start.status == Running
    requires sent == GenuineRun(c, file, 0, BlockCount(c, |file|)) && r == RecvAll(c, start, sent)
    ensures r.status == Completed && r.written == file && r.acks == AckPlan(c, |file|, 0)
  {
    ReceiverFollowsPlan(c, file, start);
    assert r.acks == start.acks + AckPlan(c, |file|, 0);
  }

  lemma SenderFed(c: Config, file: seq<byte>, garbage: seq<byte>, sent: seq<datagram>, acks: seq<word>)
    requires c.Valid() && |garbage| == c.Need() && BlockCount(c, |file|) <= 65535
    requires sent == GenuineRun(c, file, 0, BlockCount(c, |file|)) && acks == AckPlan(c, |file|, 0)
    ensures SendRun(c, file, Start(c, garbage), Replies(acks), []) == (Finished, sent)
  {
    assert 0 * c.blk == 0;
    SenderFollowsPlan(c, file, Start(c, garbage), []);
  }

  /**
   * The same identity for the two programs as they stand: fed the datagrams of the file in order,
   * _recv_file completes with the file written and sends one ACK for each window; fed those ACKs,
   * _send_file transmits exactly those datagrams and returns.
   */
  lemma EachFeedsTheOther(c: Config, file: seq<byte>, garbage: seq<byte>, sent: seq<datagram>, r: Receiver)
    requires c.Valid() && |garbage| == c.Need() && BlockCount(c, |file|) <= 65535
    requires sent == GenuineRun(c, file, 0, BlockCount(c, |file|)) && r == RecvAll(c, INITIAL, sent)
    ensures r.status == Completed && r.written == file && r.acks == AckPlan(c, |file|, 0)
    ensures SendRun(c, file, Start(c, garbage), Replies(r.acks), []) == (Finished, sent)
  {
    assert 0 * c.blk == 0;
    ReceiverFed(c, file, INITIAL, sent, r);
    SenderFed(c, file, garbage, sent, r.acks);
  }
}
