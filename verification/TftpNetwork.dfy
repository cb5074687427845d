/** Sender and receiver joined by a network that loses, repeats, reorders and damages. */
module TftpNetwork {
  import opened Bytes
  import opened TftpPacket
  import opened TftpSender
  import opened TftpAlignment
  import opened TftpRuns
  import opened TftpReceiver
  import opened TftpTransfer

  /** Everything the sender transmits over a run of ACKs, up to the window it is waiting on. */
  function Transcript(c: Config, file: seq<byte>, s: Sender, acks: seq<word>): seq<datagram>
    requires s.Valid(c, |file|)
    decreases |acks|
  {
    var w := RoundWindow(c, file, s);
    if w == [] || acks == [] then w else w + Transcript(c, file, NextRound(c, file, s, acks[0]), acks[1..])
  }

  // ----- _send_file against any replies -----

  /** Some window up to the one after the last of these ACKs is empty, which makes the sender return. */
  predicate Returns(c: Config, size: nat, t: Sender, acks: seq<word>)
    requires c.Valid()
    decreases |acks|
  {
    t.Position() >= BlockCount(c, size) || (acks != [] && Returns(c, size, OnAck(c, t, acks[0]), acks[1..]))
  }

  lemma EmptyWindow(c: Config, file: seq<byte>, s: Sender)
    requires s.Valid(c, |file|)
    ensures RoundWindow(c, file, s) == [] <==> Counter(s).Position() >= BlockCount(c, |file|)
  {
  }

  lemma AddLogs(log: seq<datagram>, w: seq<datagram>, rest: seq<datagram>)
    ensures log + w + rest == log + (w + rest)
  {
  }

  lemma RepliesSplit(acks: seq<word>, tail: seq<datagram>)
    requires acks != []
    ensures var all := Replies(acks) + tail;
            all[0] == EncodeAck(acks[0]) && all[1..] == Replies(acks[1..]) + tail
  {
  }

  lemma RunStep(c: Config, file: seq<byte>, s: Sender, acks: seq<word>, tail: seq<datagram>, log: seq<datagram>)
    requires s.Valid(c, |file|) && acks != [] && RoundWindow(c, file, s) != []
    ensures SendRun(c, file, s, Replies(acks) + tail, log)
            == SendRun(c, file, NextRound(c, file, s, acks[0]), Replies(acks[1..]) + tail, log + RoundWindow(c, file, s))
  {
    AckRoundTrip(acks[0]);
    RepliesSplit(acks, tail);
  }

  lemma RunAtTail(c: Config, file: seq<byte>, s: Sender, tail: seq<datagram>, log: seq<datagram>)
    requires s.Valid(c, |file|) && (tail == [] || OpenAck(tail[0]).Refused?)
    ensures var w := RoundWindow(c, file, s);
            SendRun(c, file, s, tail, log)
            == (if w == [] then Finished else if tail == [] then Awaiting else Terminated, log + w)
  {
    assert RoundWindow(c, file, s) == [] ==> log + RoundWindow(c, file, s) == log;
  }

  /**
   * What _send_file does, whatever it is sent: until the first reply that is no intact ACK it
   * transmits the windows its ACKs call for, and no more; it returns as soon as one of them is
   * empty, is terminated by such a reply, and otherwise waits for the next.
   */
  lemma {:induction false} SendRunIs(c: Config, file: seq<byte>, s: Sender, acks: seq<word>, tail: seq<datagram>, log: seq<datagram>)
    requires s.Valid(c, |file|) && (tail == [] || OpenAck(tail[0]).Refused?)
    ensures SendRun(c, file, s, Replies(acks) + tail, log)
            == (if Returns(c, |file|, Counter(s), acks) then Finished else if tail == [] then Awaiting else Terminated,
                log + Transcript(c, file, s, acks))
    decreases |acks|
  {
    EmptyWindow(c, file, s);
    if acks == [] {
      assert Replies(acks) + tail == tail;
      RunAtTail(c, file, s, tail, log);
    } else if RoundWindow(c, file, s) == [] {
      assert log + RoundWindow(c, file, s) == log;
    } else {
      var w, t := RoundWindow(c, file, s), NextRound(c, file, s, acks[0]);
      RunStep(c, file, s, acks, tail, log);
      CounterOfRound(c, file, s, acks[0]);
      SendRunIs(c, file, t, acks[1..], tail, log + w);
      AddLogs(log, w, Transcript(c, file, t, acks[1..]));
    }
  }

  /** In every round up to the one the sender returns in, the next window is on track. */
  predicate AllOnTrack(c: Config, size: nat, k: nat, t: Sender, acks: seq<word>)
    requires c.Valid()
    decreases |acks|
  {
    && OnTrack(c, size, k, t.Position())
    && (acks == [] || Pending(c, size, t.Position()) == 0 || AllOnTrack(c, size, k + 1, OnAck(c, t, acks[0]), acks[1..]))
  }

  // ----- On track, whatever the network delivers is safe -----

  lemma GenuineIsDeliverable(c: Config, file: seq<byte>, j: nat, d: datagram)
    requires c.Valid() && j < BlockCount(c, |file|) <= 65535 && d == GenuineDatagram(c, file, j)
    ensures Deliverable(c, file, d)
  {
    GenuineCarries(c, file, j);
    assert Carries(c, file, d, j);
  }

  lemma RunIsDeliverable(c: Config, file: seq<byte>, from: nat, count: nat, d: datagram)
    requires c.Valid() && from + count <= BlockCount(c, |file|) <= 65535 && d in GenuineRun(c, file, from, count)
    ensures Deliverable(c, file, d)
  {
    var i := IndexIn(GenuineRun(c, file, from, count), d);
    GenuineIsDeliverable(c, file, from + i, d);
  }

  lemma WindowIsDeliverable(c: Config, file: seq<byte>, s: Sender, d: datagram)
    requires s.Valid(c, |file|) && GenuineWindow(c, file, s) && BlockCount(c, |file|) <= 65535
    requires d in RoundWindow(c, file, s)
    ensures Deliverable(c, file, d)
  {
    if s.Position() < BlockCount(c, |file|) {
      GenuineWindowIsRun(c, file, s);
      RunIsDeliverable(c, file, s.Position(), Pending(c, |file|, s.Position()), d);
    }
  }

  lemma IndexIn(w: seq<datagram>, d: datagram) returns (i: nat)
    requires d in w
    ensures i < |w| && w[i] == d
  {
    i :| i < |w| && w[i] == d;
  }

  lemma {:induction false} TranscriptIsDeliverable(c: Config, file: seq<byte>, k: nat, s: Sender, acks: seq<word>, d: datagram)
    requires Loaded(c, file, k, s) && AllOnTrack(c, |file|, k, Counter(s), acks) && BlockCount(c, |file|) <= 65535
    requires d in Transcript(c, file, s, acks)
    ensures Deliverable(c, file, d)
    decreases |acks|
  {
    if d in RoundWindow(c, file, s) {
      OnTrackSendsGenuine(c, file, k, s);
      WindowIsDeliverable(c, file, s, d);
    } else {
      RoundLoads(c, file, k, s, acks[0]);
      CounterOfRound(c, file, s, acks[0]);
      TranscriptIsDeliverable(c, file, k + 1, NextRound(c, file, s, acks[0]), acks[1..], d);
    }
  }

  /** What the network may hand over: anything the sender transmitted, or something visibly damaged. */
  ghost predicate Drawn(c: Config, file: seq<byte>, garbage: seq<byte>, acks: seq<word>, inbox: seq<datagram>)
    requires c.Valid() && |garbage| == c.Need()
  {
    forall d | d in inbox :: d in Transcript(c, file, Start(c, garbage), acks) || (OpenData(d).Block? && !OpenData(d).intact)
  }

  /**
   * End to end over a network that loses, repeats and reorders datagrams at will and damages them
   * detectably: with every window on track, whatever the receiver has written is the file's first
   * blocks, and a completed transfer is the file.
   */
  lemma UnreliableNetwork(c: Config, file: seq<byte>, garbage: seq<byte>, acks: seq<word>, inbox: seq<datagram>)
    requires c.Valid() && |garbage| == c.Need() && BlockCount(c, |file|) <= 65535
    requires AllOnTrack(c, |file|, 0, ORIGIN, acks) && Drawn(c, file, garbage, acks, inbox)
    ensures Faithful(c, file, RecvAll(c, INITIAL, inbox))
    ensures RecvAll(c, INITIAL, inbox).status == Completed ==> RecvAll(c, INITIAL, inbox).written == file
  {
    StartLoaded(c, file, garbage);
    forall d | d in inbox
      ensures Deliverable(c, file, d)
    {
      if d in Transcript(c, file, Start(c, garbage), acks) {
        TranscriptIsDeliverable(c, file, 0, Start(c, garbage), acks, d);
      }
    }
    InitiallyFaithful(c, file);
    ReceiverIsFaithful(c, file, INITIAL, inbox);
  }

  // ----- Off track, some file and some delivery are not -----

  /** The first window off track, with every window before it on track and not empty. */
  ghost predicate FirstOff(c: Config, size: nat, k: nat, t: Sender, acks: seq<word>, n: nat)
    requires c.Valid() && n <= |acks|
  {
    && !OnTrack(c, size, k + n, Counted(c, t, acks[..n]).Position())
    && forall j | 0 <= j < n ::
         OnTrack(c, size, k + j, Counted(c, t, acks[..j]).Position()) && Pending(c, size, Counted(c, t, acks[..j]).Position()) > 0
  }

  lemma CountedStep(c: Config, t: Sender, acks: seq<word>, j: nat)
    requires 0 < j <= |acks|
    ensures Counted(c, t, acks[..j]) == Counted(c, OnAck(c, t, acks[0]), acks[1..][..j - 1])
  {
    assert acks[..j][1..] == acks[1..][..j - 1];
  }

  lemma {:induction false} FindFirstOff(c: Config, size: nat, k: nat, t: Sender, acks: seq<word>) returns (n: nat)
    requires c.Valid() && !AllOnTrack(c, size, k, t, acks)
    ensures n <= |acks| && FirstOff(c, size, k, t, acks, n)
    decreases |acks|
  {
    assert Counted(c, t, acks[..0]) == t;
    if !OnTrack(c, size, k, t.Position()) {
      n := 0;
    } else {
      var m := FindFirstOff(c, size, k + 1, OnAck(c, t, acks[0]), acks[1..]);
      n := m + 1;
      CountedStep(c, t, acks, n);
      forall j | 0 <= j < n
        ensures OnTrack(c, size, k + j, Counted(c, t, acks[..j]).Position())
        ensures Pending(c, size, Counted(c, t, acks[..j]).Position()) > 0
      {
        if j > 0 {
          CountedStep(c, t, acks, j);
          assert OnTrack(c, size, (k + 1) + (j - 1), Counted(c, OnAck(c, t, acks[0]), acks[1..][..j - 1]).Position());
        }
      }
    }
  }

  /** The windows up to round n are all in the transcript if none before it is empty. */
  lemma {:induction false} WindowIsSent(c: Config, file: seq<byte>, s: Sender, acks: seq<word>, n: nat, d: datagram)
    requires s.Valid(c, |file|) && n <= |acks|
    requires forall j | 0 <= j < n :: Pending(c, |file|, Counted(c, Counter(s), acks[..j]).Position()) > 0
    requires d in RoundWindow(c, file, AfterAcks(c, file, s, acks[..n]))
    ensures d in Transcript(c, file, s, acks)
    decreases |acks|
  {
    if n == 0 {
      assert acks[..0] == [];
    } else {
      var t := NextRound(c, file, s, acks[0]);
      CounterOfRound(c, file, s, acks[0]);
      assert Counted(c, Counter(s), acks[..0]) == Counter(s);
      assert acks[..n][1..] == acks[1..][..n - 1];
      forall j | 0 <= j < n - 1
        ensures Pending(c, |file|, Counted(c, Counter(t), acks[1..][..j]).Position()) > 0
      {
        CountedStep(c, Counter(s), acks, j + 1);
        assert Pending(c, |file|, Counted(c, Counter(s), acks[..j + 1]).Position()) > 0;
      }
      WindowIsSent(c, file, t, acks[1..], n - 1, d);
    }
  }

  /** An ACK moves a short transfer on within the window just sent, or past the end of the file. */
  lemma MovesWithinWindow(c: Config, t: Sender, size: nat, ack: word)
    requires c.Valid() && BlockCount(c, size) <= 65535 && t.block < WORD_LIMIT
    requires t.Position() < BlockCount(c, size) && OnAck(c, t, ack).Position() < BlockCount(c, size)
    ensures t.Position() <= OnAck(c, t, ack).Position() <= t.Position() + Pending(c, size, t.Position())
  {
  }

  lemma {:induction false} CountedLast(c: Config, t: Sender, acks: seq<word>)
    requires acks != []
    ensures Counted(c, t, acks) == OnAck(c, Counted(c, t, acks[..|acks| - 1]), acks[|acks| - 1])
    decreases |acks|
  {
    if |acks| > 1 {
      CountedLast(c, OnAck(c, t, acks[0]), acks[1..]);
      assert acks[1..][..|acks| - 2] == acks[..|acks| - 1][1..];
    } else {
      assert acks[..0] == [] && acks[1..] == [];
    }
  }

  lemma {:induction false} CountedIsWord(c: Config, t: Sender, acks: seq<word>)
    requires t.block < WORD_LIMIT
    ensures Counted(c, t, acks).block < WORD_LIMIT
    decreases |acks|
  {
    if acks != [] {
      CountedIsWord(c, OnAck(c, t, acks[0]), acks[1..]);
    }
  }

  lemma WindowOnTrack(c: Config, file: seq<byte>, garbage: seq<byte>, acks: seq<word>)
    requires c.Valid() && |garbage| == c.Need() && OnTrack(c, |file|, |acks|, PositionAfter(c, acks))
    requires PositionAfter(c, acks) < BlockCount(c, |file|)
    ensures var p := PositionAfter(c, acks);
            RoundWindow(c, file, AfterAcks(c, file, Start(c, garbage), acks)) == GenuineRun(c, file, p, Pending(c, |file|, p))
  {
    WindowAfter(c, file, garbage, acks);
    OnTrackSendsGenuine(c, file, |acks|, AfterAcks(c, file, Start(c, garbage), acks));
    GenuineWindowIsRun(c, file, AfterAcks(c, file, Start(c, garbage), acks));
  }

  lemma InRun(c: Config, file: seq<byte>, from: nat, count: nat, j: nat)
    requires c.Valid() && from + count <= BlockCount(c, |file|) && from <= j < from + count
    ensures GenuineDatagram(c, file, j) in GenuineRun(c, file, from, count)
  {
    assert GenuineRun(c, file, from, count)[j - from] == GenuineDatagram(c, file, j);
  }

  lemma SentFrom(c: Config, file: seq<byte>, garbage: seq<byte>, acks: seq<word>, n: nat, d: datagram)
    requires c.Valid() && |garbage| == c.Need() && n <= |acks|
    requires forall j | 0 <= j < n :: Pending(c, |file|, PositionAfter(c, acks[..j])) > 0
    requires d in RoundWindow(c, file, AfterAcks(c, file, Start(c, garbage), acks[..n]))
    ensures d in Transcript(c, file, Start(c, garbage), acks)
  {
    WindowIsSent(c, file, Start(c, garbage), acks, n, d);
  }

  /** By the first window off track every block before it has gone out as it should. */
  lemma {:induction false} BlocksSent(c: Config, file: seq<byte>, garbage: seq<byte>, acks: seq<word>, n: nat, j: nat)
    requires c.Valid() && |garbage| == c.Need() && n <= |acks| && BlockCount(c, |file|) <= 65535
    requires forall i | 0 <= i < n ::
               OnTrack(c, |file|, i, PositionAfter(c, acks[..i])) && Pending(c, |file|, PositionAfter(c, acks[..i])) > 0
    requires j < PositionAfter(c, acks[..n]) < BlockCount(c, |file|)
    ensures GenuineDatagram(c, file, j) in Transcript(c, file, Start(c, garbage), acks)
  {
    if n > 0 {
      var before, q := acks[..n - 1], PositionAfter(c, acks[..n - 1]);
      assert acks[..n][..n - 1] == before;
      CountedLast(c, ORIGIN, acks[..n]);
      CountedIsWord(c, ORIGIN, before);
      MovesWithinWindow(c, Counted(c, ORIGIN, before), |file|, acks[n - 1]);
      if j < q {
        BlocksSent(c, file, garbage, acks, n - 1, j);
      } else {
        WindowOnTrack(c, file, garbage, before);
        InRun(c, file, q, Pending(c, |file|, q), j);
        SentFrom(c, file, garbage, acks, n - 1, GenuineDatagram(c, file, j));
      }
    }
  }

  /** The receiver has taken exactly the first p blocks. */
  ghost predicate Took(c: Config, file: seq<byte>, p: nat, r: Receiver)
    requires c.Valid()
  {
    Faithful(c, file, r) && r.lastId == p && r.status != Aborted
  }

  lemma RunPlusOne(c: Config, file: seq<byte>, start: Receiver, p: nat)
    requires c.Valid() && p < BlockCount(c, |file|)
    ensures RecvAll(c, start, GenuineRun(c, file, 0, p + 1))
            == RecvAll(c, RecvAll(c, start, GenuineRun(c, file, 0, p)), [GenuineDatagram(c, file, p)])
  {
    assert GenuineRun(c, file, 0, p + 1) == GenuineRun(c, file, 0, p) + [GenuineDatagram(c, file, p)];
    RecvSplit(c, start, GenuineRun(c, file, 0, p), [GenuineDatagram(c, file, p)]);
  }

  lemma {:induction false} BlocksReceived(c: Config, file: seq<byte>, start: Receiver, p: nat)
    requires c.Valid() && p <= BlockCount(c, |file|) <= 65535 && Took(c, file, 0, start)
    ensures Took(c, file, p, RecvAll(c, start, GenuineRun(c, file, 0, p)))
  {
    if p > 0 {
      BlocksReceived(c, file, start, p - 1);
      RunPlusOne(c, file, start, p - 1);
      OneMoreReceived(c, file, RecvAll(c, start, GenuineRun(c, file, 0, p - 1)), GenuineDatagram(c, file, p - 1));
    }
  }

  lemma RecvOne(c: Config, r: Receiver, d: datagram)
    ensures RecvAll(c, r, [d]) == RecvStep(c, r, d)
  {
    assert [d][1..] == [];
  }

  lemma OneMoreReceived(c: Config, file: seq<byte>, r: Receiver, d: datagram)
    requires c.Valid() && Took(c, file, r.lastId, r) && r.lastId < BlockCount(c, |file|) <= 65535
    requires d == GenuineDatagram(c, file, r.lastId)
    ensures Took(c, file, r.lastId + 1, RecvAll(c, r, [d]))
  {
    RecvOne(c, r, d);
    GenuineCarries(c, file, r.lastId);
    GenuineIsDeliverable(c, file, r.lastId, d);
    StepIsFaithful(c, file, r, d);
  }

  lemma RecvData(c: Config, r: Receiver, id: word, x: seq<byte>)
    ensures RecvStep(c, r, EncodeData(id, x)) == RecvPacket(c, r, Block(id, x, true))
  {
    DataRoundTrip(id, x);
  }

  /** The right number on the wrong bytes is taken, and spoils the file. */
  lemma WrongBytesSpoil(c: Config, file: seq<byte>, p: nat, r: Receiver, data: seq<byte>, bad: datagram)
    requires c.Valid() && Took(c, file, p, r) && p < BlockCount(c, |file|) <= 65535
    requires data != FileBlock(c, file, p) && OpenData(bad) == Block(p + 1, data, true)
    ensures !Faithful(c, file, RecvStep(c, r, bad))
  {
    PrefixGrows(c, file, p);
    TakenAndWrong(c, file, r, data);
  }

  lemma TakenAndWrong(c: Config, file: seq<byte>, r: Receiver, data: seq<byte>)
    requires c.Valid() && r.status == Running && r.lastId < BlockCount(c, |file|) <= 65535
    requires r.written == Prefix(c, file, r.lastId) && data != FileBlock(c, file, r.lastId)
    requires Prefix(c, file, r.lastId) + FileBlock(c, file, r.lastId) == Prefix(c, file, r.lastId + 1)
    ensures !Faithful(c, file, RecvPacket(c, r, Block(r.lastId + 1, data, true)))
  {
    var t := RecvPacket(c, r, Block(r.lastId + 1, data, true));
    assert t.written == r.written + data && t.lastId == r.lastId + 1;
    SameFront(r.written, data, FileBlock(c, file, r.lastId));
  }

  lemma SameFront(a: seq<byte>, x: seq<byte>, y: seq<byte>)
    ensures a + x == a + y ==> x == y
  {
    assert (a + x)[|a|..] == x && (a + y)[|a|..] == y;
  }

  lemma FirstOfWindow(c: Config, buffer: seq<byte>, size: nat, p: nat, data: seq<byte>) returns (d: datagram)
    requires c.Valid() && |buffer| == c.Need() && p < BlockCount(c, size) <= 65535
    requires data == SlotData(c, buffer, size, p, 0)
    ensures d in Window(c, buffer, size, p) && OpenData(d) == Block(p + 1, data, true)
  {
    assert (p + 0 + 1) % WORD_LIMIT == p + 1;
    d := Window(c, buffer, size, p)[0];
    DataRoundTrip(p + 1, data);
  }

  lemma FirstDataDiffers(c: Config, file: seq<byte>, buffer: seq<byte>, p: nat)
    requires c.Valid() && |buffer| == c.Need() > 0 && p * c.blk < |file| && buffer[0] != file[p * c.blk]
    ensures p < BlockCount(c, |file|) && Pending(c, |file|, p) > 0
    ensures SlotData(c, buffer, |file|, p, 0) != FileBlock(c, file, p)
  {
    FirstByteOfBlock(c, file, p);
    FirstByteOfSlot(c, buffer, |file|, p);
  }

  lemma BufferOffTrack(c: Config, size: nat, garbage: seq<byte>, acks: seq<word>, file: seq<byte>) returns (buffer: seq<byte>)
    requires c.Valid() && |garbage| == c.Need() && !OnTrack(c, size, |acks|, PositionAfter(c, acks))
    requires file == Witness(size, PositionAfter(c, acks) * c.blk)
    ensures |buffer| == c.Need() > 0 && PositionAfter(c, acks) * c.blk < size && buffer[0] != file[PositionAfter(c, acks) * c.blk]
    ensures RoundWindow(c, file, AfterAcks(c, file, Start(c, garbage), acks)) == Window(c, buffer, size, PositionAfter(c, acks))
  {
    var s := AfterAcks(c, file, Start(c, garbage), acks);
    WindowAfter(c, file, garbage, acks);
    OffTrackSendsOther(c, |acks|, s, size, file);
    buffer := Refill(c, file, s).buffer;
  }

  /** The first datagram of a window off track, when the file is the one that shows it. */
  lemma BadDatagram(c: Config, size: nat, garbage: seq<byte>, acks: seq<word>, file: seq<byte>)
    returns (data: seq<byte>, bad: datagram)
    requires c.Valid() && |garbage| == c.Need() && !OnTrack(c, size, |acks|, PositionAfter(c, acks))
    requires file == Witness(size, PositionAfter(c, acks) * c.blk) && BlockCount(c, size) <= 65535
    ensures PositionAfter(c, acks) < BlockCount(c, size) && data != FileBlock(c, file, PositionAfter(c, acks))
    ensures OpenData(bad) == Block(PositionAfter(c, acks) + 1, data, true)
    ensures bad in RoundWindow(c, file, AfterAcks(c, file, Start(c, garbage), acks))
  {
    var p := PositionAfter(c, acks);
    var buffer := BufferOffTrack(c, size, garbage, acks, file);
    FirstDataDiffers(c, file, buffer, p);
    data := SlotData(c, buffer, size, p, 0);
    bad := FirstOfWindow(c, buffer, size, p, data);
  }

  lemma SpoilsFurther(c: Config, file: seq<byte>, start: Receiver, good: seq<datagram>, bad: datagram, r: Receiver)
    requires c.Valid() && r == RecvAll(c, start, good) && !Faithful(c, file, RecvStep(c, r, bad))
    ensures !Faithful(c, file, RecvAll(c, start, good + [bad]))
  {
    RecvSplit(c, start, good, [bad]);
    RecvOne(c, r, bad);
  }

  lemma OneBadAfterGood(c: Config, file: seq<byte>, start: Receiver, p: nat, data: seq<byte>, bad: datagram)
    requires c.Valid() && p < BlockCount(c, |file|) <= 65535 && Took(c, file, 0, start)
    requires data != FileBlock(c, file, p) && OpenData(bad) == Block(p + 1, data, true)
    ensures !Faithful(c, file, RecvAll(c, start, GenuineRun(c, file, 0, p) + [bad]))
  {
    var good := GenuineRun(c, file, 0, p);
    var r := RecvAll(c, start, good);
    BlocksReceived(c, file, start, p);
    WrongBytesSpoil(c, file, p, r, data, bad);
    SpoilsFurther(c, file, start, good, bad, r);
  }

  lemma SpoiledFromStart(c: Config, file: seq<byte>, p: nat, data: seq<byte>, bad: datagram, inbox: seq<datagram>)
    requires c.Valid() && p < BlockCount(c, |file|) <= 65535 && data != FileBlock(c, file, p)
    requires OpenData(bad) == Block(p + 1, data, true) && inbox == GenuineRun(c, file, 0, p) + [bad]
    ensures !Faithful(c, file, RecvAll(c, INITIAL, inbox))
  {
    InitiallyFaithful(c, file);
    OneBadAfterGood(c, file, INITIAL, p, data, bad);
  }

  /** Deliver the good blocks in order, then the first bad one. */
  lemma SpoiledInbox(c: Config, size: nat, garbage: seq<byte>, acks: seq<word>, n: nat)
    returns (file: seq<byte>, inbox: seq<datagram>)
    requires c.Valid() && |garbage| == c.Need() && BlockCount(c, size) <= 65535
    requires n <= |acks| && FirstOff(c, size, 0, ORIGIN, acks, n)
    ensures |file| == size && Drawn(c, file, garbage, acks, inbox) && !Faithful(c, file, RecvAll(c, INITIAL, inbox))
  {
    var p := PositionAfter(c, acks[..n]);
    file := Witness(size, p * c.blk);
    var data, bad := BadDatagram(c, size, garbage, acks[..n], file);
    inbox := GenuineRun(c, file, 0, p) + [bad];
    AllDrawn(c, file, garbage, acks, n, p, bad, inbox);
    SpoiledFromStart(c, file, p, data, bad, inbox);
  }

  lemma AllDrawn(c: Config, file: seq<byte>, garbage: seq<byte>, acks: seq<word>, n: nat, p: nat, bad: datagram,
                 inbox: seq<datagram>)
    requires c.Valid() && |garbage| == c.Need() && BlockCount(c, |file|) <= 65535
    requires n <= |acks| && FirstOff(c, |file|, 0, ORIGIN, acks, n) && p == PositionAfter(c, acks[..n]) < BlockCount(c, |file|)
    requires bad in RoundWindow(c, file, AfterAcks(c, file, Start(c, garbage), acks[..n]))
    requires inbox == GenuineRun(c, file, 0, p) + [bad]
    ensures Drawn(c, file, garbage, acks, inbox)
  {
    forall i | 0 <= i < n
      ensures OnTrack(c, |file|, i, PositionAfter(c, acks[..i])) && Pending(c, |file|, PositionAfter(c, acks[..i])) > 0
    {
      assert OnTrack(c, |file|, 0 + i, Counted(c, ORIGIN, acks[..i]).Position());
    }
    forall d | d in inbox
      ensures d in Transcript(c, file, Start(c, garbage), acks)
    {
      if d in GenuineRun(c, file, 0, p) {
        var j := IndexIn(GenuineRun(c, file, 0, p), d);
        BlocksSent(c, file, garbage, acks, n, j);
      } else {
        SentFrom(c, file, garbage, acks, n, bad);
      }
    }
  }

  /**
   * Both halves: for any ACKs the sender may have acted on, all files of a size arrive faithfully
   * under every delivery of what was transmitted if and only if every window was on track.
   */
  lemma NetworkIff(c: Config, size: nat, garbage: seq<byte>, acks: seq<word>)
    requires c.Valid() && |garbage| == c.Need() && BlockCount(c, size) <= 65535
    ensures (forall file: seq<byte>, inbox: seq<datagram> | |file| == size && Drawn(c, file, garbage, acks, inbox) ::
               Faithful(c, file, RecvAll(c, INITIAL, inbox)))
            <==> AllOnTrack(c, size, 0, ORIGIN, acks)
  {
    if AllOnTrack(c, size, 0, ORIGIN, acks) {
      forall file: seq<byte>, inbox: seq<datagram> | |file| == size && Drawn(c, file, garbage, acks, inbox)
        ensures Faithful(c, file, RecvAll(c, INITIAL, inbox))
      {
        UnreliableNetwork(c, file, garbage, acks, inbox);
      }
    } else {
      var n := FindFirstOff(c, size, 0, ORIGIN, acks);
      var file, inbox := SpoiledInbox(c, size, garbage, acks, n);
      assert |file| == size && Drawn(c, file, garbage, acks, inbox) && !Faithful(c, file, RecvAll(c, INITIAL, inbox));
    }
  }

  // ----- The smallest example -----

  lemma OneSlot(c: Config, buffer: seq<byte>, size: nat, p: nat, i: nat, id: word, x: seq<byte>)
    requires c.Valid() && |buffer| == c.Need() && i < Pending(c, size, p)
    requires id == (p + i + 1) % WORD_LIMIT && SlotData(c, buffer, size, p, i) == x
    ensures Window(c, buffer, size, p)[i] == EncodeData(id, x)
  {
  }

  lemma RecvTwo(c: Config, r: Receiver, d: datagram, e: datagram)
    ensures RecvAll(c, r, [d, e]) == RecvStep(c, RecvStep(c, r, d), e)
  {
    assert [d, e][1..] == [e];
    assert [e][1..] == [];
    assert RecvAll(c, RecvStep(c, r, d), [e]) == RecvAll(c, RecvStep(c, RecvStep(c, r, d), e), []);
  }

  lemma TinyWindow(a: byte, b: byte, s: Sender, p: nat, x: seq<byte>, y: seq<byte>)
    requires p <= 1 && s.outer == 0 && s.block == p && s.Valid(Config(1, 2), 2)
    requires Refill(Config(1, 2), [a, b], s).buffer == [a, b]
    requires x == [a] && y == if p == 0 then [b] else []
    ensures RoundWindow(Config(1, 2), [a, b], s) == [EncodeData(p + 1, x), EncodeData(p + 2, y)]
  {
    var c := Config(1, 2);
    assert SlotData(c, [a, b], 2, p, 0) == x;
    assert SlotData(c, [a, b], 2, p, 1) == y;
    OneSlot(c, [a, b], 2, p, 0, p + 1, x);
    OneSlot(c, [a, b], 2, p, 1, p + 2, y);
  }

  lemma TinyReceive(c: Config, r: Receiver, id: word, x: seq<byte>, id': word, y: seq<byte>)
    ensures RecvAll(c, r, [EncodeData(id, x), EncodeData(id', y)])
            == RecvPacket(c, RecvPacket(c, r, Block(id, x, true)), Block(id', y, true))
  {
    RecvTwo(c, r, EncodeData(id, x), EncodeData(id', y));
    RecvData(c, r, id, x);
    RecvData(c, RecvPacket(c, r, Block(id, x, true)), id', y);
  }

  lemma TinyFirstPass(a: byte)
    ensures RecvAll(Config(1, 2), INITIAL, [EncodeData(1, [a]), EncodeData(1, [a])])
            == Receiver(1, 0, [a], [1], Running)
  {
    TinyReceive(Config(1, 2), INITIAL, 1, [a], 1, [a]);
  }

  lemma TinySecondPass(a: byte, r: Receiver)
    requires r == Receiver(1, 0, [a], [1], Running)
    ensures RecvAll(Config(1, 2), r, [EncodeData(2, [a]), EncodeData(3, [])])
            == Receiver(3, 0, [a, a], [1, 3], Completed)
  {
    var c := Config(1, 2);
    assert RecvPacket(c, r, Block(2, [a], true)) == Receiver(2, 1, [a, a], [1], Running);
    assert RecvPacket(c, Receiver(2, 1, [a, a], [1], Running), Block(3, [], true))
        == Receiver(3, 0, [a, a], [1, 3], Completed);
    TinyReceive(c, r, 2, [a], 3, []);
  }

  lemma TinySender(a: byte, b: byte)
    ensures NextRound(Config(1, 2), [a, b], Start(Config(1, 2), [0, 0]), 1) == Sender(0, 1, 2, [a, b])
    ensures RoundWindow(Config(1, 2), [a, b], Start(Config(1, 2), [0, 0])) == [EncodeData(1, [a]), EncodeData(2, [b])]
    ensures RoundWindow(Config(1, 2), [a, b], Sender(0, 1, 2, [a, b])) == [EncodeData(2, [a]), EncodeData(3, [])]
  {
    var s := Start(Config(1, 2), [0, 0]);
    assert Refill(Config(1, 2), [a, b], s) == Sender(0, 0, 2, [a, b]);
    assert Refill(Config(1, 2), [a, b], Sender(0, 1, 2, [a, b])).buffer == [a, b];
    TinyWindow(a, b, s, 0, [a], [b]);
    TinyWindow(a, b, Sender(0, 1, 2, [a, b]), 1, [a], []);
  }

  /**
   * Send a two-byte file in one-byte blocks with a window of two, and let the network deliver the
   * first datagram twice instead of the first two. The receiver acknowledges one block; the
   * sender, whose file position is already past both, refills nothing and labels the first byte
   * as block 2. The transfer then completes with the file [a, a].
   */
  lemma RepeatedBlockSpoilsFile(a: byte, b: byte, s: Sender, t: Sender, r: Receiver, one: datagram, two: datagram)
    requires s == Start(Config(1, 2), [0, 0]) && t == NextRound(Config(1, 2), [a, b], s, 1)
    requires RoundWindow(Config(1, 2), [a, b], s) == [one, two]
    requires r == RecvAll(Config(1, 2), INITIAL, [one, one])
    ensures r.acks == [1] && !StaleAck(Config(1, 2), s, 1)
    ensures RecvAll(Config(1, 2), r, RoundWindow(Config(1, 2), [a, b], t)).status == Completed
    ensures RecvAll(Config(1, 2), r, RoundWindow(Config(1, 2), [a, b], t)).written == [a, a]
    ensures a != b ==> RecvAll(Config(1, 2), r, RoundWindow(Config(1, 2), [a, b], t)).written != [a, b]
  {
    TinySender(a, b);
    TinyFirstPass(a);
    TinySecondPass(a, r);
    assert one == [one, two][0] == [EncodeData(1, [a]), EncodeData(2, [b])][0];
  }
}
