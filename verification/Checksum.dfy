/** The ones' complement packet checksum of src/networking/checksum.c. */
module Checksum {
  import opened Bytes

  /** The zero-filled working buffer: past the data it reads as zero. */
  function ByteAt(data: seq<byte>, i: nat): byte {
    if i < |data| then data[i] else 0
  }

  function WordAt(data: seq<byte>, k: nat): nat {
    Word(ByteAt(data, 2 * k), ByteAt(data, 2 * k + 1))
  }

  function WordCount(data: seq<byte>): nat {
    (|data| + 1) / 2
  }

  function SumWords(data: seq<byte>, n: nat): nat {
    if n == 0 then 0 else SumWords(data, n - 1) + WordAt(data, n - 1)
  }

  function WordSum(data: seq<byte>): nat {
    SumWords(data, WordCount(data))
  }

  /** Where repeated end-around carries leave a sum: zero stays zero, the rest lands in 1..65535. */
  function Residue(n: nat): (r: nat)
    ensures r < WORD_LIMIT
  {
    if n == 0 then 0 else (n - 1) % 65535 + 1
  }

  function ChecksumOf(data: seq<byte>): (c: nat)
    ensures c < WORD_LIMIT
  {
    65535 - Residue(WordSum(data))
  }

  lemma FoldStep(n: nat)
    requires n >= WORD_LIMIT
    ensures 0 < n % WORD_LIMIT + n / WORD_LIMIT < n
    ensures Residue(n % WORD_LIMIT + n / WORD_LIMIT) == Residue(n)
  {
    var q, r := n / WORD_LIMIT, n % WORD_LIMIT;
    assert n - 1 == 65535 * q + (q + r - 1);
    assert (65535 * q + (q + r - 1)) % 65535 == (q + r - 1) % 65535;
  }

  lemma {:induction false} WordsPastTheEnd(data: seq<byte>, extra: nat)
    ensures SumWords(data, WordCount(data) + extra) == WordSum(data)
  {
    if extra > 0 {
      WordsPastTheEnd(data, extra - 1);
    }
  }

  /** The folding loop: add the carries back until 16 bits are left. */
  method FoldCarries(total: nat) returns (sum: nat)
    ensures sum == Residue(total)
  {
    sum := total;
    while sum / WORD_LIMIT != 0
      invariant Residue(sum) == Residue(total)
      decreases sum
    {
      FoldStep(sum);
      sum := sum % WORD_LIMIT + sum / WORD_LIMIT;
    }
  }

  /** The summing loop over the working buffer, two bytes at a time. */
  method SumBuffer(buff: array<byte>, limit: nat, ghost data: seq<byte>) returns (sum: nat)
    requires limit <= buff.Length && buff.Length % 2 == 0
    requires forall i | 0 <= i < buff.Length :: buff[i] == ByteAt(data, i)
    ensures sum == SumWords(data, (limit + 1) / 2)
  {
    sum := 0;
    var i := 0;
    ghost var k: nat := 0;
    while i < limit
      invariant i == 2 * k && i <= limit + 1 && sum == SumWords(data, k)
    {
      sum := sum + Word(buff[i], buff[i + 1]);
      i, k := i + 2, k + 1;
    }
  }

  /** Copy the data into the zeroed working buffer. */
  method FillBuffer(temp: seq<byte>, buff: array<byte>)
    requires |temp| <= buff.Length && forall i | 0 <= i < buff.Length :: buff[i] == 0
    modifies buff
    ensures forall i | 0 <= i < buff.Length :: buff[i] == ByteAt(temp, i)
  {
    forall k | 0 <= k < |temp| {
      buff[k] := temp[k];
    }
  }

  /** The extra word the padding flag may add is zero. */
  lemma PaddingAddsNothing(data: seq<byte>, padd: nat)
    requires padd <= 1
    ensures SumWords(data, (|data| + padd + 1) / 2) == WordSum(data)
  {
    WordsPastTheEnd(data, (|data| + padd + 1) / 2 - WordCount(data));
  }

  /** One's complement of a folded 64-bit sum, truncated to 16 bits. */
  lemma Complement(sum: nat)
    requires sum < WORD_LIMIT
    ensures (0x1_0000_0000_0000_0000 - 1 - sum) % WORD_LIMIT == 65535 - sum
  {
    assert 0x1_0000_0000_0000_0000 - 1 - sum == 0xFFFF_FFFF_FFFF * WORD_LIMIT + (65535 - sum);
  }

  /**
   * checksum_: copy into the cleared static buffer, take the padding flag into account, sum the
   * words, fold the carries, complement. The flag never changes the answer.
   */
  method Checksum(temp: seq<byte>, padding: int) returns (c: nat)
    requires |temp| < WORD_LIMIT
    ensures c == ChecksumOf(temp)
  {
    var len := |temp|;
    var buff := new byte[WORD_LIMIT](_ => 0);
    FillBuffer(temp, buff);
    var padd := 0;
    if padding % 2 == 1 {
      padd := 1;
      buff[len] := 0;
    }
    var sum := SumBuffer(buff, len + padd, temp);
    PaddingAddsNothing(temp, padd);
    sum := FoldCarries(sum);
    Complement(sum);
    sum := 0x1_0000_0000_0000_0000 - 1 - sum;
    c := sum % WORD_LIMIT;
  }

  /** The 64-bit accumulator of the C code cannot overflow on any buffer a 16-bit length can name. */
  lemma {:induction false} SumFits(data: seq<byte>, n: nat)
    ensures SumWords(data, n) <= 65535 * n
  {
    if n > 0 {
      SumFits(data, n - 1);
    }
  }

  /** A receiver sees zero exactly when the words add up to a positive multiple of 65535. */
  lemma ZeroChecksum(data: seq<byte>)
    ensures ChecksumOf(data) == 0 <==> WordSum(data) > 0 && WordSum(data) % 65535 == 0
  {
    var s := WordSum(data);
    if s > 0 {
      var q, r := (s - 1) / 65535, (s - 1) % 65535;
      assert s == 65535 * q + (r + 1);
      if r == 65534 {
        assert s == 65535 * (q + 1);
      } else {
        assert (65535 * q + (r + 1)) % 65535 == r + 1;
      }
    }
  }

  lemma {:induction false} SumAfterPrefix(w: nat, data: seq<byte>, n: nat)
    requires w < WORD_LIMIT
    ensures SumWords([Hi(w), Lo(w)] + data, n + 1) == w + SumWords(data, n)
  {
    var all := [Hi(w), Lo(w)] + data;
    if n == 0 {
      WordOfHalves(w);
      assert SumWords(all, 1) == SumWords(all, 0) + WordAt(all, 0);
    } else {
      SumAfterPrefix(w, data, n - 1);
      assert ByteAt(all, 2 * n) == ByteAt(data, 2 * n - 2);
      assert ByteAt(all, 2 * n + 1) == ByteAt(data, 2 * n - 1);
    }
  }

  lemma FourWords(d: seq<byte>)
    requires |d| == 8
    ensures WordSum(d) == WordAt(d, 0) + WordAt(d, 1) + WordAt(d, 2) + WordAt(d, 3)
  {
    assert SumWords(d, 2) == SumWords(d, 1) + WordAt(d, 1);
    assert SumWords(d, 4) == SumWords(d, 3) + WordAt(d, 3);
  }

  lemma WordIs(d: seq<byte>, k: nat, hi: byte, lo: byte)
    requires 2 * k + 1 < |d| && d[2 * k] == hi && d[2 * k + 1] == lo
    ensures WordAt(d, k) == 256 * hi + lo
  {
  }

  /** The worked example of section 3 of RFC 1071: words 0001 f203 f4f5 f6f7, sum ddf2. */
  lemma WorkedExample(d: seq<byte>)
    requires d == [0x00, 0x01, 0xf2, 0x03, 0xf4, 0xf5, 0xf6, 0xf7]
    ensures ChecksumOf(d) == 0xffff - 0xddf2
  {
    WordIs(d, 0, 0x00, 0x01);
    WordIs(d, 1, 0xf2, 0x03);
    WordIs(d, 2, 0xf4, 0xf5);
    WordIs(d, 3, 0xf6, 0xf7);
    FourWords(d);
    assert WordSum(d) == 0x2ddf0;
    assert Residue(0x2ddf0) == 0xddf2;
  }

  /** What _send puts on the wire: the checksum in network order, then the payload. */
  function Seal(payload: seq<byte>): seq<byte> {
    [Hi(ChecksumOf(payload)), Lo(ChecksumOf(payload))] + payload
  }

  /** Every sealed payload, of even or odd length, passes the receivers' whole-packet check. */
  lemma SealedVerifies(payload: seq<byte>)
    ensures ChecksumOf(Seal(payload)) == 0
  {
    var s, c := WordSum(payload), ChecksumOf(payload);
    SumAfterPrefix(c, payload, WordCount(payload));
    assert WordSum(Seal(payload)) == c + s;
    if s > 0 {
      var q := (s - 1) / 65535;
      assert c + s == 65535 * (q + 1);
    }
    ZeroChecksum(Seal(payload));
  }

  ghost predicate DifferOnlyAt(d: seq<byte>, e: seq<byte>, k: nat) {
    |d| == |e| && forall i: nat | i != k :: WordAt(d, i) == WordAt(e, i)
  }

  lemma {:induction false} SumsDifferBy(d: seq<byte>, e: seq<byte>, k: nat, n: nat)
    requires DifferOnlyAt(d, e, k)
    ensures SumWords(e, n) - SumWords(d, n) == if k < n then WordAt(e, k) - WordAt(d, k) else 0
  {
    if n > 0 {
      SumsDifferBy(d, e, k, n - 1);
    }
  }

  /** The two words that ones' complement arithmetic cannot tell apart. */
  predicate ExchangesZeros(a: nat, b: nat) {
    (a == 0 && b == 65535) || (a == 65535 && b == 0)
  }

  lemma ResidueAfterChange(sum: nat, a: nat, b: nat)
    requires sum % 65535 == 0 && a < WORD_LIMIT && b < WORD_LIMIT && a != b
    ensures (sum + (b - a)) % 65535 == 0 <==> ExchangesZeros(a, b)
  {
    var q := sum / 65535;
    var r := (sum + (b - a)) / 65535;
    if (sum + (b - a)) % 65535 == 0 {
      assert b - a == 65535 * (r - q);
    }
  }

  lemma VerdictAfterChange(d: seq<byte>, e: seq<byte>, a: nat, b: nat)
    requires ChecksumOf(d) == 0 && a < WORD_LIMIT && b < WORD_LIMIT && a != b
    requires WordSum(e) == WordSum(d) + (b - a)
    ensures ChecksumOf(e) == 0 <==> ExchangesZeros(a, b) && WordSum(e) > 0
  {
    ZeroChecksum(d);
    ZeroChecksum(e);
    ResidueAfterChange(WordSum(d), a, b);
  }

  lemma WordSumAfterChange(d: seq<byte>, e: seq<byte>, k: nat)
    requires DifferOnlyAt(d, e, k) && k < WordCount(d)
    ensures WordSum(e) == WordSum(d) + (WordAt(e, k) - WordAt(d, k))
  {
    SumsDifferBy(d, e, k, WordCount(d));
  }

  /**
   * Replacing one aligned word of a valid packet goes unnoticed exactly when 0x0000 and 0xFFFF,
   * the two zeros of ones' complement, are exchanged and the packet is not left all zero.
   */
  lemma SingleWordError(d: seq<byte>, e: seq<byte>, k: nat)
    requires ChecksumOf(d) == 0 && DifferOnlyAt(d, e, k) && k < WordCount(d)
    requires WordAt(d, k) != WordAt(e, k)
    ensures ChecksumOf(e) == 0 <==> ExchangesZeros(WordAt(d, k), WordAt(e, k)) && WordSum(e) > 0
  {
    WordSumAfterChange(d, e, k);
    VerdictAfterChange(d, e, WordAt(d, k), WordAt(e, k));
  }
}
