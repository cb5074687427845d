/** The windowed sender: _send_file and __send_blocks. */
module TftpSender {
  import opened Bytes
  import opened TftpPacket

  /** The negotiated options the transfer loops read from the handler. */
  datatype Config = Config(blk: nat, window: nat) {
    predicate Valid() {
      blk >= 1 && 1 <= window <= 255
    }

    function Need(): nat {
      blk * window
    }
  }

  // ----- The file as numbered blocks -----

  function BlockCount(c: Config, size: nat): nat
    requires c.Valid()
  {
    size / c.blk + 1
  }

  lemma MulMonotone(a: nat, b: nat, k: nat)
    requires a <= b
    ensures a * k <= b * k
  {
    assert b * k == a * k + (b - a) * k;
  }

  lemma BlockStart(c: Config, size: nat, j: nat)
    requires c.Valid()
    ensures j * c.blk <= size <==> j < BlockCount(c, size)
  {
    var q := size / c.blk;
    assert q * c.blk <= size < (q + 1) * c.blk;
    if j <= q {
      MulMonotone(j, q, c.blk);
    } else {
      MulMonotone(q + 1, j, c.blk);
    }
  }

  /** How long the block that starts at byte j * blk is: full, or the rest of the file. */
  function BlockLength(c: Config, size: nat, j: nat): nat
    requires c.Valid() && j < BlockCount(c, size)
  {
    BlockStart(c, size, j);
    Min(size - j * c.blk, c.blk)
  }

  /** Block j of the file, counting from zero; the last one is short, perhaps empty. */
  function FileBlock(c: Config, file: seq<byte>, j: nat): (b: seq<byte>)
    requires c.Valid() && j < BlockCount(c, |file|)
    ensures |b| == BlockLength(c, |file|, j)
  {
    BlockStart(c, |file|, j);
    file[j * c.blk..j * c.blk + BlockLength(c, |file|, j)]
  }

  /** Exactly the last block is shorter than the block size, by the remainder of the division. */
  lemma OnlyLastBlockIsShort(c: Config, size: nat, j: nat)
    requires c.Valid() && j < BlockCount(c, size)
    ensures BlockLength(c, size, j) < c.blk <==> j == BlockCount(c, size) - 1
    ensures j == BlockCount(c, size) - 1 ==> BlockLength(c, size, j) == size % c.blk
  {
    BlockStart(c, size, j);
    BlockStart(c, size, j + 1);
    assert (j + 1) * c.blk == j * c.blk + c.blk;
  }

  /** The DATA datagram an RFC 1350 sender owes for block j. */
  function GenuineDatagram(c: Config, file: seq<byte>, j: nat): datagram
    requires c.Valid() && j < BlockCount(c, |file|)
  {
    EncodeData((j + 1) % WORD_LIMIT, FileBlock(c, file, j))
  }

  // ----- The sender -----

  /** The locals of _send_file: block counter in two halves, file position, read buffer. */
  datatype Sender = Sender(outer: nat, block: nat, offset: nat, buffer: seq<byte>) {
    function Position(): nat {
      outer * WORD_LIMIT + block
    }

    ghost predicate Valid(c: Config, size: nat) {
      c.Valid() && block < WORD_LIMIT && offset <= size && |buffer| == c.Need()
    }
  }

  /** fread: the buffer keeps its old bytes past what the file still had to give. */
  function Refill(c: Config, file: seq<byte>, s: Sender): (t: Sender)
    requires s.Valid(c, |file|)
    ensures t.Valid(c, |file|) && t.Position() == s.Position()
  {
    var n := Min(c.Need(), |file| - s.offset);
    s.(offset := s.offset + n, buffer := file[s.offset..s.offset + n] + s.buffer[n..])
  }

  /** How many blocks a window that starts at block p holds. */
  function Pending(c: Config, size: nat, p: nat): nat
    requires c.Valid()
  {
    if p < BlockCount(c, size) then Min(c.window, BlockCount(c, size) - p) else 0
  }

  lemma SliceFits(c: Config, i: nat)
    requires c.Valid() && i < c.window
    ensures i * c.blk + c.blk <= c.Need()
  {
    MulMonotone(i + 1, c.window, c.blk);
    assert (i + 1) * c.blk == i * c.blk + c.blk;
  }

  /** The bytes of slot i of a window that starts at block p, cut from the buffer. */
  function SlotData(c: Config, buffer: seq<byte>, size: nat, p: nat, i: nat): (b: seq<byte>)
    requires c.Valid() && |buffer| == c.Need() && i < Pending(c, size, p)
    ensures |b| == BlockLength(c, size, p + i)
  {
    SliceFits(c, i);
    buffer[i * c.blk..i * c.blk + BlockLength(c, size, p + i)]
  }

  function WindowSlot(c: Config, buffer: seq<byte>, size: nat, p: nat, i: nat): datagram
    requires c.Valid() && |buffer| == c.Need() && i < Pending(c, size, p)
  {
    EncodeData((p + i + 1) % WORD_LIMIT, SlotData(c, buffer, size, p, i))
  }

  function Window(c: Config, buffer: seq<byte>, size: nat, p: nat): (w: seq<datagram>)
    requires c.Valid() && |buffer| == c.Need()
    ensures |w| == Pending(c, size, p)
  {
    seq(Pending(c, size, p), i requires 0 <= i < Pending(c, size, p) => WindowSlot(c, buffer, size, p, i))
  }

  /** The acceptance test on an ACK number and the wrap of the inner counter. */
  predicate Accepts(c: Config, block: nat, ack: nat) {
    var last := block + c.window;
    (last >= ack && ack >= block) || (ack <= last % WORD_LIMIT && ack < block)
  }

  function OnAck(c: Config, s: Sender, ack: nat): Sender {
    if Accepts(c, s.block, ack) then
      s.(outer := if ack < s.block then s.outer + 1 else s.outer, block := ack)
    else
      s
  }

  /** Does number ack fall below the inner counter although the window ends before the wrap? */
  predicate StaleAck(c: Config, s: Sender, ack: nat) {
    ack < s.block && s.block + c.window < WORD_LIMIT
  }

  /**
   * 16-bit unwrapping: when the true count lies in the window, its low 16 bits are accepted and
   * restore it in full.
   */
  lemma AckUnwraps(c: Config, s: Sender, count: nat)
    requires c.Valid() && s.block < WORD_LIMIT
    requires s.Position() <= count <= s.Position() + c.window
    ensures Accepts(c, s.block, count % WORD_LIMIT)
    ensures OnAck(c, s, count % WORD_LIMIT).Position() == count
  {
    var d := count - s.Position();
    assert count == s.outer * WORD_LIMIT + (s.block + d);
    if s.block + d < WORD_LIMIT {
      assert count % WORD_LIMIT == s.block + d;
    } else {
      assert count == (s.outer + 1) * WORD_LIMIT + (s.block + d - WORD_LIMIT);
      assert count % WORD_LIMIT == s.block + d - WORD_LIMIT;
    }
  }

  /**
   * The converse: whatever 16-bit number arrives, the position stays inside the window, and an
   * accepted number is the low half of the new position, exactly when the number is not stale.
   * A stale one is accepted too and moves the sender forward by almost 65536 blocks.
   */
  lemma AckStaysInWindow(c: Config, s: Sender, ack: nat)
    requires c.Valid() && s.block < WORD_LIMIT && ack < WORD_LIMIT
    ensures s.Position() <= OnAck(c, s, ack).Position() <= s.Position() + c.window <==> !StaleAck(c, s, ack)
    ensures Accepts(c, s.block, ack) ==> OnAck(c, s, ack).Position() % WORD_LIMIT == ack
    ensures OnAck(c, s, ack).block < WORD_LIMIT
    ensures StaleAck(c, s, ack) ==>
              Accepts(c, s.block, ack) && OnAck(c, s, ack).Position() == s.Position() + WORD_LIMIT - (s.block - ack)
  {
  }

  /** What 16 bits of a count are left on the wire. */
  function OnWire(count: nat): word {
    count % WORD_LIMIT
  }

  lemma AckInWindow(c: Config, s: Sender, ack: word, count: nat)
    requires c.Valid() && s.block < WORD_LIMIT
    requires s.Position() <= count <= s.Position() + c.window && OnWire(count) == ack
    ensures OnAck(c, s, ack) == s.(outer := count / WORD_LIMIT, block := ack)
  {
    AckUnwraps(c, s, count);
    var t := OnAck(c, s, ack);
    assert count == t.outer * WORD_LIMIT + t.block && t.block == ack;
    assert count / WORD_LIMIT == t.outer;
  }

  lemma AckOutsideWindow(c: Config, s: Sender, ack: word)
    requires c.Valid() && s.block < WORD_LIMIT && !StaleAck(c, s, ack)
    requires forall count: nat | s.Position() <= count <= s.Position() + c.window :: OnWire(count) != ack
    ensures OnAck(c, s, ack) == s
  {
    AckStaysInWindow(c, s, ack);
    assert OnWire(OnAck(c, s, ack).Position()) != ack;
  }

  /**
   * What every number there is does to the sender: one that stands for a count in the window makes
   * that the count, a stale one skips almost 65536 blocks, and any other leaves the sender alone.
   * The file position and the buffer are never touched.
   */
  lemma AckVerdict(c: Config, s: Sender, ack: word)
    requires c.Valid() && s.block < WORD_LIMIT
    ensures forall count: nat | s.Position() <= count <= s.Position() + c.window && OnWire(count) == ack ::
              OnAck(c, s, ack) == s.(outer := count / WORD_LIMIT, block := ack)
    ensures !StaleAck(c, s, ack) && (forall count: nat | s.Position() <= count <= s.Position() + c.window :: OnWire(count) != ack)
            ==> OnAck(c, s, ack) == s
    ensures StaleAck(c, s, ack) ==> OnAck(c, s, ack) == s.(outer := s.outer + 1, block := ack)
  {
    forall count: nat | s.Position() <= count <= s.Position() + c.window && OnWire(count) == ack
      ensures OnAck(c, s, ack) == s.(outer := count / WORD_LIMIT, block := ack)
    {
      AckInWindow(c, s, ack, count);
    }
    if !StaleAck(c, s, ack) && (forall count: nat | s.Position() <= count <= s.Position() + c.window :: OnWire(count) != ack) {
      AckOutsideWindow(c, s, ack);
    }
  }

  /** fread, byte by byte: what the file still has to give, then what was there before. */
  lemma RefillBytes(c: Config, file: seq<byte>, s: Sender, j: nat)
    requires s.Valid(c, |file|) && j < c.Need()
    ensures Refill(c, file, s).buffer[j] == if s.offset + j < |file| then file[s.offset + j] else s.buffer[j]
    ensures Refill(c, file, s).offset == if s.offset + c.Need() < |file| then s.offset + c.Need() else |file|
  {
  }

  // ----- The imperative code -----

  /** One turn of the loop in __send_blocks: the datagram for slot i of the window at block p. */
  method CutBlock(c: Config, buffer: array<byte>, size: nat, p: nat, i: nat) returns (d: datagram)
    requires c.Valid() && buffer.Length == c.Need() && i < Pending(c, size, p)
    ensures d == WindowSlot(c, buffer[..], size, p, i)
  {
    BlockStart(c, size, p + i);
    SliceFits(c, i);
    var rest := size - (p + i) * c.blk;
    var length := if rest < c.blk then rest else c.blk;
    var data := buffer[i * c.blk..i * c.blk + length];
    assert data == buffer[..][i * c.blk..i * c.blk + length];
    d := EncodeData((p + i + 1) % WORD_LIMIT, data);
  }

  // ----- The products that have to fit -----

  /** The C code multiplies block number and block size in a 32-bit int. */
  const INT_LIMIT := 0x8000_0000

  /** How many block starts __send_blocks works out: one a slot, and one for the first block past the file. */
  function Tests(c: Config, size: nat, p: nat): nat
    requires c.Valid()
  {
    if p < BlockCount(c, size) then Min(c.window, BlockCount(c, size) - p + 1) else 1
  }

  function Products(c: Config, size: nat, p: nat): (products: seq<nat>)
    requires c.Valid()
    ensures |products| == Tests(c, size, p)
  {
    seq(Tests(c, size, p), i requires 0 <= i < Tests(c, size, p) => (p + i) * c.blk)
  }

  /** No product overflows. */
  predicate Fits(products: seq<nat>) {
    forall i | 0 <= i < |products| :: products[i] < INT_LIMIT
  }

  /** Up to the end of the file no product exceeds that of the block count. */
  lemma ProductsBounded(c: Config, size: nat, p: nat)
    requires c.Valid() && p <= BlockCount(c, size)
    ensures forall i | 0 <= i < |Products(c, size, p)| :: Products(c, size, p)[i] <= BlockCount(c, size) * c.blk
  {
    forall i | 0 <= i < |Products(c, size, p)|
      ensures Products(c, size, p)[i] <= BlockCount(c, size) * c.blk
    {
      MulMonotone(p + i, BlockCount(c, size), c.blk);
    }
  }

  lemma OneMoreProduct(c: Config, size: nat, p: nat, i: nat)
    requires c.Valid() && i < c.window && (i <= Pending(c, size, p))
    ensures i < Tests(c, size, p)
    ensures Products(c, size, p)[..i + 1] == Products(c, size, p)[..i] + [(p + i) * c.blk]
  {
  }

  /** The test that finds the end of the file is the last; so is the one of a full window. */
  lemma NoMoreProducts(c: Config, size: nat, p: nat, i: nat)
    requires c.Valid() && i == Pending(c, size, p)
    ensures i < c.window ==> Products(c, size, p)[..Min(i + 1, Tests(c, size, p))] == Products(c, size, p) && Tests(c, size, p) == i + 1
    ensures i == c.window ==> Products(c, size, p)[..Min(i, Tests(c, size, p))] == Products(c, size, p) && Tests(c, size, p) == i
  {
  }

  /** __send_blocks: the loop stops at the window's end or at the first block past the file. */
  method SendBlocks(c: Config, buffer: array<byte>, size: nat, outer: nat, inner: nat)
    returns (more: bool, sent: seq<datagram>, ghost products: seq<nat>)
    requires c.Valid() && buffer.Length == c.Need()
    ensures sent == Window(c, buffer[..], size, outer * WORD_LIMIT + inner)
    ensures more <==> sent != []
    ensures products == Products(c, size, outer * WORD_LIMIT + inner)
  {
    ghost var p := outer * WORD_LIMIT + inner;
    sent, products := [], [];
    var i := 0;
    while i < c.window
      invariant 0 <= i <= Pending(c, size, p) <= c.window && i <= Tests(c, size, p)
      invariant sent == Window(c, buffer[..], size, p)[..i]
      invariant products == Products(c, size, p)[..i]
    {
      var local := outer * WORD_LIMIT + inner + i;
      BlockStart(c, size, local);
      OneMoreProduct(c, size, p, i);
      products := products + [local * c.blk];
      if local * c.blk > size {
        NoMoreProducts(c, size, p, i);
        return i != 0, sent, products;
      }
      var d := CutBlock(c, buffer, size, outer * WORD_LIMIT + inner, i);
      sent := sent + [d];
      i := i + 1;
    }
    NoMoreProducts(c, size, p, i);
    more := true;
  }

  datatype Outcome = Finished | Awaiting | Terminated

  /** One turn of the while loop up to the receipt of an ACK: refill, then the window. */
  function RoundWindow(c: Config, file: seq<byte>, s: Sender): seq<datagram>
    requires s.Valid(c, |file|)
  {
    Window(c, Refill(c, file, s).buffer, |file|, s.Position())
  }

  /**
   * All datagrams the sender emits against a script of replies, after those in the log, and how
   * it ends.
   */
  function SendRun(c: Config, file: seq<byte>, s: Sender, replies: seq<datagram>, log: seq<datagram>)
    : (Outcome, seq<datagram>)
    requires s.Valid(c, |file|)
    decreases |replies|
  {
    var w := RoundWindow(c, file, s);
    if w == [] then (Finished, log)
    else if replies == [] then (Awaiting, log + w)
    else
      match OpenAck(replies[0])
      case Refused => (Terminated, log + w)
      case Acked(ack) => SendRun(c, file, OnAck(c, Refill(c, file, s), ack), replies[1..], log + w)
  }

  function Start(c: Config, garbage: seq<byte>): Sender {
    Sender(0, 0, 0, garbage)
  }

  /** fread into the buffer from the current file position. */
  method Fread(c: Config, file: seq<byte>, buffer: array<byte>, offset: nat, ghost s: Sender) returns (next: nat)
    requires s.Valid(c, |file|) && s.buffer == buffer[..] && s.offset == offset
    modifies buffer
    ensures buffer[..] == Refill(c, file, s).buffer && next == Refill(c, file, s).offset
  {
    var n := Min(buffer.Length, |file| - offset);
    forall i | 0 <= i < n {
      buffer[i] := file[offset + i];
    }
    next := offset + n;
  }

  /** The acceptance test of _send_file and its two counter updates. */
  method TakeAck(c: Config, outer: nat, block: nat, ack: nat, ghost s: Sender) returns (outer': nat, block': nat)
    requires s.outer == outer && s.block == block
    ensures outer' == OnAck(c, s, ack).outer && block' == OnAck(c, s, ack).block
  {
    outer', block' := outer, block;
    var last := block + c.window;
    if (last >= ack && ack >= block) || (ack <= last % WORD_LIMIT && ack < block) {
      if ack < block {
        outer' := outer + 1;
      }
      block' := ack;
    }
  }

  /**
   * _send_file, fed by a script of reply datagrams; the read buffer starts with whatever the
   * stack held. An exhausted script leaves it waiting in the receive call.
   */
  method SendFile(c: Config, file: seq<byte>, buffer: array<byte>, replies: seq<datagram>)
    returns (outcome: Outcome, sent: seq<datagram>)
    requires c.Valid() && buffer.Length == c.Need()
    modifies buffer
    ensures (outcome, sent) == SendRun(c, file, Start(c, old(buffer[..])), replies, [])
  {
    var outer: nat, block: nat, offset: nat, k: nat := 0, 0, 0, 0;
    sent := [];
    ghost var s := Start(c, buffer[..]);
    ghost var total := SendRun(c, file, s, replies, []);
    assert replies[0..] == replies;
    while true
      invariant k <= |replies| && s.Valid(c, |file|)
      invariant s == Sender(outer, block, offset, buffer[..])
      invariant total == SendRun(c, file, s, replies[k..], sent)
      decreases |replies| - k
    {
      ghost var t := Refill(c, file, s);
      offset := Fread(c, file, buffer, offset, s);
      var more, window, _ := SendBlocks(c, buffer, |file|, outer, block);
      if !more {
        return Finished, sent;
      }
      sent := sent + window;
      if k == |replies| {
        return Awaiting, sent;
      }
      var reply := OpenAck(replies[k]);
      if reply.Refused? {
        return Terminated, sent;
      }
      outer, block := TakeAck(c, outer, block, reply.id, t);
      assert replies[k..][1..] == replies[k + 1..];
      s, k := OnAck(c, t, reply.id), k + 1;
    }
  }
}
