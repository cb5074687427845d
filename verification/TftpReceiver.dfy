/** The cumulative-ACK receiver: _recv_file. */
module TftpReceiver {
  import opened Bytes
  import opened TftpPacket
  import opened TftpSender

  datatype Status = Running | Completed | Aborted

  /**
   * The locals of _recv_file: the last block taken, the index inside the current window, the file
   * written so far and the numbers of the ACKs sent so far.
   */
  datatype Receiver = Receiver(lastId: word, slot: nat, written: seq<byte>, acks: seq<word>, status: Status)

  const INITIAL := Receiver(0, 0, [], [], Running)

  function SendAck(r: Receiver): Receiver {
    r.(slot := 0, acks := r.acks + [r.lastId])
  }

  /** The end of a pass through the window loop: an ACK once the window is used up. */
  function NextSlot(c: Config, r: Receiver): Receiver {
    if r.slot + 1 >= c.window then SendAck(r) else r.(slot := r.slot + 1)
  }

  /** One packet, as _recv_data hands it over. */
  function RecvPacket(c: Config, r: Receiver, packet: Incoming): Receiver {
    if r.status != Running then r
    else
      match packet
      case Rejected => r.(status := Aborted)
      case Block(id, data, intact) =>
        if !intact then SendAck(r)
        else if id != r.lastId + 1 then NextSlot(c, r)
        else
          var taken := r.(lastId := id, written := r.written + data);
          if |data| < c.blk then SendAck(taken).(status := Completed) else NextSlot(c, taken)
  }

  // ----- When an ACK is sent, and what it does -----

  /** A damaged block is answered at once with the last good number, and the window starts over. */
  lemma DamagedIsAnswered(c: Config, r: Receiver, d: datagram)
    requires r.status == Running && OpenData(d).Block? && !OpenData(d).intact
    ensures RecvStep(c, r, d) == Receiver(r.lastId, 0, r.written, r.acks + [r.lastId], Running)
  {
  }

  /** An intact block out of turn uses up a slot, and nothing else unless it was the last one. */
  lemma OutOfTurnIsCounted(c: Config, r: Receiver, d: datagram)
    requires r.status == Running && OpenData(d).Block? && OpenData(d).intact && OpenData(d).id != r.lastId + 1
    ensures r.slot + 1 < c.window ==> RecvStep(c, r, d) == Receiver(r.lastId, r.slot + 1, r.written, r.acks, Running)
    ensures r.slot + 1 >= c.window ==> RecvStep(c, r, d) == Receiver(r.lastId, 0, r.written, r.acks + [r.lastId], Running)
  {
  }

  /** The next block is written; a full one is acknowledged with its window, a short one at once. */
  lemma NextBlockIsTaken(c: Config, r: Receiver, d: datagram)
    requires r.status == Running && OpenData(d).Block? && OpenData(d).intact && OpenData(d).id == r.lastId + 1
    ensures var id, written := OpenData(d).id, r.written + OpenData(d).data;
            RecvStep(c, r, d) ==
              if |OpenData(d).data| < c.blk then Receiver(id, 0, written, r.acks + [id], Completed)
              else if r.slot + 1 >= c.window then Receiver(id, 0, written, r.acks + [id], Running)
              else Receiver(id, r.slot + 1, written, r.acks, Running)
  {
  }

  /** Anything but DATA ends the transfer where it stands. */
  lemma OtherKindAborts(c: Config, r: Receiver, d: datagram)
    requires r.status == Running && OpenData(d).Rejected?
    ensures RecvStep(c, r, d) == Receiver(r.lastId, r.slot, r.written, r.acks, Aborted)
  {
  }

  lemma {:induction false} AcksGrow(c: Config, r: Receiver, inbox: seq<datagram>)
    ensures |r.acks| <= |RecvAll(c, r, inbox).acks|
    decreases |inbox|
  {
    if inbox != [] {
      AcksGrow(c, RecvStep(c, r, inbox[0]), inbox[1..]);
    }
  }

  /** No window's worth of datagrams, good or bad, goes by without an ACK. */
  lemma {:induction false} AckEveryWindow(c: Config, r: Receiver, inbox: seq<datagram>)
    requires c.Valid() && r.status == Running && r.slot < c.window && r.slot + |inbox| >= c.window
    requires RecvAll(c, r, inbox).status != Aborted
    ensures |RecvAll(c, r, inbox).acks| > |r.acks|
    decreases |inbox|
  {
    var t := RecvStep(c, r, inbox[0]);
    AcksGrow(c, t, inbox[1..]);
    if t.status == Aborted {
      StoppedIgnores(c, t, inbox[1..]);
    } else if |t.acks| == |r.acks| {
      AckEveryWindow(c, t, inbox[1..]);
    }
  }

  function RecvStep(c: Config, r: Receiver, d: datagram): Receiver {
    RecvPacket(c, r, OpenData(d))
  }

  function RecvAll(c: Config, r: Receiver, inbox: seq<datagram>): Receiver
    decreases |inbox|
  {
    if inbox == [] then r else RecvAll(c, RecvStep(c, r, inbox[0]), inbox[1..])
  }

  lemma {:induction false} RecvSplit(c: Config, r: Receiver, a: seq<datagram>, b: seq<datagram>)
    ensures RecvAll(c, r, a + b) == RecvAll(c, RecvAll(c, r, a), b)
    decreases |a|
  {
    if a == [] {
      assert a + b == b;
    } else {
      assert (a + b)[1..] == a[1..] + b;
      RecvSplit(c, RecvStep(c, r, a[0]), a[1..], b);
    }
  }

  lemma {:induction false} StoppedIgnores(c: Config, r: Receiver, inbox: seq<datagram>)
    requires r.status != Running
    ensures RecvAll(c, r, inbox) == r
    decreases |inbox|
  {
    if inbox != [] {
      StoppedIgnores(c, r, inbox[1..]);
    }
  }

  /**
   * _recv_file over a script of arriving datagrams: the outer loop sends one ACK per pass, the
   * inner loop takes up to a window of datagrams and leaves early on a bad checksum.
   */
  method RecvFile(c: Config, inbox: seq<datagram>) returns (r: Receiver)
    requires c.Valid()
    ensures r == RecvAll(c, INITIAL, inbox)
  {
    var lastId: word, written: seq<byte>, acks: seq<word>, k: nat := 0, [], [], 0;
    ghost var cur := INITIAL;
    assert inbox[0..] == inbox;
    while true
      invariant k <= |inbox| && RecvAll(c, INITIAL, inbox) == RecvAll(c, cur, inbox[k..])
      invariant cur == Receiver(lastId, 0, written, acks, Running)
      decreases |inbox| - k
    {
      var i: nat := 0;
      ghost var start := k;
      while i < c.window
        invariant k <= |inbox| && RecvAll(c, INITIAL, inbox) == RecvAll(c, cur, inbox[k..])
        invariant i <= c.window && k == start + i
        invariant i < c.window ==> cur == Receiver(lastId, i, written, acks, Running)
        invariant i == c.window ==> cur == Receiver(lastId, 0, written, acks + [lastId], Running)
      {
        if k == |inbox| {
          return Receiver(lastId, i, written, acks, Running);
        }
        var packet := OpenData(inbox[k]);
        assert inbox[k..][1..] == inbox[k + 1..];
        cur, k := RecvStep(c, cur, inbox[k]), k + 1;
        if packet.Rejected? {
          StoppedIgnores(c, cur, inbox[k..]);
          return Receiver(lastId, i, written, acks, Aborted);
        }
        if !packet.intact {
          break;
        }
        if packet.id == lastId + 1 {
          lastId := packet.id;
          written := written + packet.data;
          if |packet.data| < c.blk {
            StoppedIgnores(c, cur, inbox[k..]);
            return Receiver(lastId, 0, written, acks + [lastId], Completed);
          }
        }
        i := i + 1;
      }
      acks := acks + [lastId];
    }
  }

  // ----- Safety against an unreliable network -----

  /** The first m blocks of the file, laid end to end. */
  function Prefix(c: Config, file: seq<byte>, m: nat): seq<byte> {
    file[..Min(|file|, m * c.blk)]
  }

  lemma PrefixGrows(c: Config, file: seq<byte>, m: nat)
    requires c.Valid() && m < BlockCount(c, |file|)
    ensures Prefix(c, file, m) + FileBlock(c, file, m) == Prefix(c, file, m + 1)
  {
    BlockStart(c, |file|, m);
    assert (m + 1) * c.blk == m * c.blk + c.blk;
  }

  lemma PrefixOfAll(c: Config, file: seq<byte>)
    requires c.Valid()
    ensures Prefix(c, file, BlockCount(c, |file|)) == file
  {
    BlockStart(c, |file|, BlockCount(c, |file|));
  }

  /** Datagram d opens to block j of the file, counting from zero. */
  ghost predicate Carries(c: Config, file: seq<byte>, d: datagram, j: nat)
    requires c.Valid() && j < BlockCount(c, |file|)
  {
    j < 65535 && OpenData(d) == Block(j + 1, FileBlock(c, file, j), true)
  }

  /** What the network may deliver: any block of the file, or something the checksum betrays. */
  ghost predicate Deliverable(c: Config, file: seq<byte>, d: datagram)
    requires c.Valid()
  {
    OpenData(d).Block? && OpenData(d).intact ==>
      exists j: nat | j < BlockCount(c, |file|) :: Carries(c, file, d, j)
  }

  /** The first 65535 datagrams an aligned sender transmits carry their blocks. */
  lemma GenuineCarries(c: Config, file: seq<byte>, j: nat)
    requires c.Valid() && j < BlockCount(c, |file|) && j < 65535
    ensures Carries(c, file, GenuineDatagram(c, file, j), j)
  {
    assert (j + 1) % WORD_LIMIT == j + 1;
    DataRoundTrip(j + 1, FileBlock(c, file, j));
  }

  /** The file on disk is the first lastId blocks, and the transfer ends exactly at the last one. */
  ghost predicate Faithful(c: Config, file: seq<byte>, r: Receiver)
    requires c.Valid()
  {
    && r.slot < c.window
    && r.lastId <= BlockCount(c, |file|)
    && r.written == Prefix(c, file, r.lastId)
    && (r.status == Completed <==> r.lastId == BlockCount(c, |file|))
    && (forall i | 0 <= i < |r.acks| :: r.acks[i] <= r.lastId)
    && (forall i, j | 0 <= i <= j < |r.acks| :: r.acks[i] <= r.acks[j])
  }

  /** Every step keeps the file faithful, and any ACK it sends carries the count just reached. */
  lemma StepIsFaithful(c: Config, file: seq<byte>, r: Receiver, d: datagram)
    requires c.Valid() && Faithful(c, file, r) && Deliverable(c, file, d)
    ensures var t := RecvStep(c, r, d);
            && Faithful(c, file, t)
            && r.lastId <= t.lastId <= r.lastId + 1
            && (t.acks == r.acks || t.acks == r.acks + [t.lastId])
  {
    var packet := OpenData(d);
    if r.status == Running && packet.Block? && packet.intact && packet.id == r.lastId + 1 {
      assert Carries(c, file, d, r.lastId);
      PrefixGrows(c, file, r.lastId);
      OnlyLastBlockIsShort(c, |file|, r.lastId);
    }
  }

  /**
   * Whatever blocks are lost, repeated, reordered or damaged: at every moment the bytes written
   * are the first lastId blocks, the ACK numbers never fall and never run ahead, and a normal
   * return means the whole file has been written.
   */
  lemma {:induction false} ReceiverIsFaithful(c: Config, file: seq<byte>, r: Receiver, inbox: seq<datagram>)
    requires c.Valid() && Faithful(c, file, r)
    requires forall d | d in inbox :: Deliverable(c, file, d)
    ensures Faithful(c, file, RecvAll(c, r, inbox))
    ensures RecvAll(c, r, inbox).status == Completed ==> RecvAll(c, r, inbox).written == file
    decreases |inbox|
  {
    if inbox == [] {
      PrefixOfAll(c, file);
    } else {
      StepIsFaithful(c, file, r, inbox[0]);
      ReceiverIsFaithful(c, file, RecvStep(c, r, inbox[0]), inbox[1..]);
    }
  }

  /** The receiver starts faithful, so the above covers every run of _recv_file. */
  lemma InitiallyFaithful(c: Config, file: seq<byte>)
    requires c.Valid()
    ensures Faithful(c, file, INITIAL)
  {
    assert 0 * c.blk == 0;
  }

  /**
   * Block numbers do not roll over: after block 65535 the receiver waits for number 65536, which
   * no 16-bit field can carry, so nothing more is written and it never completes.
   */
  lemma {:induction false} StuckAfter65535(c: Config, r: Receiver, inbox: seq<datagram>)
    requires r.lastId == 65535 && r.status != Completed
    ensures var t := RecvAll(c, r, inbox);
            t.lastId == 65535 && t.status != Completed && t.written == r.written
    decreases |inbox|
  {
    if inbox != [] {
      StuckAfter65535(c, RecvStep(c, r, inbox[0]), inbox[1..]);
    }
  }
}
