/** base64_encode, base64_decode and build_decoding_table of src/http/helper/helper.c. */
module Base64 {
  import opened Bytes

  type sextet = x: int | 0 <= x < 64

  // ----- The alphabet -----

  /** encoding_table, by its five runs (RFC 4648, table 1). */
  function Letter(v: sextet): (c: char)
    ensures c < 128 as char && c != '='
  {
    if v < 26 then 'A' + v as char
    else if v < 52 then 'a' + (v - 26) as char
    else if v < 62 then '0' + (v - 52) as char
    else if v == 62 then '+'
    else '/'
  }

  predicate IsLetter(c: char) {
    'A' <= c <= 'Z' || 'a' <= c <= 'z' || '0' <= c <= '9' || c == '+' || c == '/'
  }

  function Value(c: char): (v: sextet)
    requires IsLetter(c)
    ensures Letter(v) == c
  {
    if 'A' <= c <= 'Z' then c as int - 'A' as int
    else if 'a' <= c <= 'z' then c as int - 'a' as int + 26
    else if '0' <= c <= '9' then c as int - '0' as int + 52
    else if c == '+' then 62
    else 63
  }

  lemma LetterIsInjective(v: sextet)
    ensures IsLetter(Letter(v)) && Value(Letter(v)) == v
  {
  }

  /** Table 1 of RFC 4648. */
  const UPPER := "ABCDEFGHIJKLMNOPQRSTUVWXYZ"
  const LOWER := "abcdefghijklmnopqrstuvwxyz"
  const DIGITS := "0123456789"

  lemma LetterIsAlphabet(v: sextet)
    ensures |UPPER| == |LOWER| == 26 && |DIGITS| == 10
    ensures Letter(v) == (UPPER + LOWER + DIGITS + "+/")[v]
  {
    var alphabet := UPPER + LOWER + DIGITS + "+/";
    if v < 26 {
      assert alphabet[v] == UPPER[v];
    } else if v < 52 {
      assert alphabet[v] == LOWER[v - 26];
    } else if v < 62 {
      assert alphabet[v] == DIGITS[v - 52];
    } else {
      assert alphabet[v] == "+/"[v - 62];
    }
  }

  // ----- Groups of 24 bits -----

  function Octet(d: seq<byte>, i: nat): byte {
    if i < |d| then d[i] else 0
  }

  /** The 24-bit group q of the input, zero-filled past the end. */
  function Triple(d: seq<byte>, q: nat): (t: nat)
    ensures t < 0x100_0000
  {
    Octet(d, 3 * q) * 0x1_0000 + Octet(d, 3 * q + 1) * 0x100 + Octet(d, 3 * q + 2)
  }

  function SixBits(t: nat, r: nat): sextet
    requires r < 4
  {
    if r == 0 then t / 0x4_0000 % 64
    else if r == 1 then t / 0x1000 % 64
    else if r == 2 then t / 0x40 % 64
    else t % 64
  }

  function EightBits(t: nat, r: nat): byte
    requires r < 3
  {
    if r == 0 then t / 0x1_0000 % 256
    else if r == 1 then t / 0x100 % 256
    else t % 256
  }

  /** mod_table: how many '=' close the text of n bytes. */
  function Padding(n: nat): nat {
    if n % 3 == 0 then 0 else if n % 3 == 1 then 2 else 1
  }

  function EncodedLength(n: nat): nat {
    4 * ((n + 2) / 3)
  }

  function Encode(d: seq<byte>): (s: string)
    ensures |s| == EncodedLength(|d|)
  {
    seq(EncodedLength(|d|), k requires 0 <= k < EncodedLength(|d|) =>
      if k >= EncodedLength(|d|) - Padding(|d|) then '=' else Letter(SixBits(Triple(d, k / 4), k % 4)))
  }

  // ----- Decoding -----

  /** A decoding table as the build leaves it: 64 entries set, the others whatever malloc gave. */
  predicate WellBuilt(table: seq<int>) {
    |table| == 256 && forall v: sextet :: table[Letter(v) as int] == v
  }

  predicate Ascii(s: string) {
    forall k | 0 <= k < |s| :: s[k] < 128 as char
  }

  /** One character as the uint32_t the decoder works with. */
  function Code(table: seq<int>, c: char): nat
    requires |table| == 256 && c < 128 as char
  {
    if c == '=' then 0 else table[c as int] % 0x1_0000_0000
  }

  /** Four codes put together; the source's additions are 32-bit. */
  function Join(a: nat, b: nat, c: nat, d: nat): nat {
    (a * 0x4_0000 + b * 0x1000 + c * 0x40 + d) % 0x1_0000_0000
  }

  function TextTriple(table: seq<int>, s: string, q: nat): nat
    requires |table| == 256 && Ascii(s) && 4 * q + 4 <= |s|
  {
    Join(Code(table, s[4 * q]), Code(table, s[4 * q + 1]), Code(table, s[4 * q + 2]), Code(table, s[4 * q + 3]))
  }

  function DecodedLength(s: string): nat
    requires |s| % 4 == 0 && s != []
  {
    |s| / 4 * 3 - (if s[|s| - 1] == '=' then 1 else 0) - (if s[|s| - 2] == '=' then 1 else 0)
  }

  function Decode(table: seq<int>, s: string): (d: seq<byte>)
    requires |table| == 256 && Ascii(s) && |s| % 4 == 0 && s != []
    ensures |d| == DecodedLength(s)
  {
    seq(DecodedLength(s), k requires 0 <= k < DecodedLength(s) => EightBits(TextTriple(table, s, k / 3), k % 3))
  }

  // ----- Round trips -----

  lemma JoinFits(a: sextet, b: sextet, c: sextet, d: sextet)
    ensures Join(a, b, c, d) == a * 0x4_0000 + b * 0x1000 + c * 0x40 + d < 0x100_0000
  {
  }

  lemma DigitsOf(a: sextet, b: sextet, c: sextet, d: sextet)
    ensures var t := a * 0x4_0000 + b * 0x1000 + c * 0x40 + d;
            t / 0x4_0000 == a && t / 0x1000 == 64 * a + b && t / 0x40 == 4096 * a + 64 * b + c
  {
  }

  /** Joining four sextets and splitting the group again loses nothing. */
  lemma SextetsSplit(a: sextet, b: sextet, c: sextet, d: sextet)
    ensures var t := Join(a, b, c, d);
            && t < 0x100_0000
            && SixBits(t, 0) == a && SixBits(t, 1) == b && SixBits(t, 2) == c && SixBits(t, 3) == d
  {
    JoinFits(a, b, c, d);
    DigitsOf(a, b, c, d);
  }

  /** Nor does splitting a group and joining the sextets. */
  lemma SextetsRejoin(t: nat)
    requires t < 0x100_0000
    ensures Join(SixBits(t, 0), SixBits(t, 1), SixBits(t, 2), SixBits(t, 3)) == t
  {
    var a, r := t / 0x4_0000, t % 0x4_0000;
    var b, r' := r / 0x1000, r % 0x1000;
    var c, d := r' / 0x40, r' % 0x40;
    JoinFits(a, b, c, d);
    SextetsSplit(a, b, c, d);
  }

  lemma OctetsSplit(a: byte, b: byte, c: byte)
    ensures var t := a * 0x1_0000 + b * 0x100 + c;
            EightBits(t, 0) == a && EightBits(t, 1) == b && EightBits(t, 2) == c
  {
  }

  lemma CodeOfEncoded(table: seq<int>, d: seq<byte>, k: nat)
    requires WellBuilt(table) && k < EncodedLength(|d|)
    ensures Encode(d)[k] < 128 as char
    ensures Code(table, Encode(d)[k]) == SixBits(Triple(d, k / 4), k % 4)
  {
    var v := SixBits(Triple(d, k / 4), k % 4);
    if k >= EncodedLength(|d|) - Padding(|d|) {
      PaddedSextetIsZero(d, k);
    } else {
      assert table[Letter(v) as int] == v;
    }
  }

  lemma EmptySextets(a: byte, b: byte)
    ensures SixBits(a * 0x1_0000 + b * 0x100, 3) == 0 && SixBits(a * 0x1_0000, 2) == 0
  {
    assert a * 0x1_0000 + b * 0x100 == 64 * (1024 * a + 4 * b);
    assert a * 0x1_0000 / 0x40 == 64 * (16 * a);
  }

  /** Where padding stands: in the last group, behind the sextets that octets reach into. */
  lemma PaddedPlace(n: nat, q: nat, k: nat)
    requires EncodedLength(n) - Padding(n) <= k < EncodedLength(n) && q == (n + 2) / 3 - 1
    ensures k / 4 == q
    ensures (n == 3 * q + 1 && (k % 4 == 2 || k % 4 == 3)) || (n == 3 * q + 2 && k % 4 == 3)
  {
    assert EncodedLength(n) == 4 * q + 4;
    assert k == 4 * q + (k - 4 * q);
  }

  lemma PaddedSextetIsZero(d: seq<byte>, k: nat)
    requires EncodedLength(|d|) - Padding(|d|) <= k < EncodedLength(|d|)
    ensures SixBits(Triple(d, k / 4), k % 4) == 0
  {
    var q := (|d| + 2) / 3 - 1;
    PaddedPlace(|d|, q, k);
    EmptySextets(Octet(d, 3 * q), Octet(d, 3 * q + 1));
    assert Triple(d, q) == Octet(d, 3 * q) * 0x1_0000 + Octet(d, 3 * q + 1) * 0x100;
  }

  lemma EncodedIsAscii(table: seq<int>, d: seq<byte>)
    requires WellBuilt(table)
    ensures Ascii(Encode(d))
  {
    forall k | 0 <= k < |Encode(d)|
      ensures Encode(d)[k] < 128 as char
    {
      CodeOfEncoded(table, d, k);
    }
  }

  lemma LengthsOf(n: nat)
    requires n > 0
    ensures EncodedLength(n) % 4 == 0 && EncodedLength(n) >= 4 && EncodedLength(n) / 4 * 3 - Padding(n) == n
  {
  }

  /** Exactly the last characters are padding. */
  lemma PaddingIsLast(d: seq<byte>, k: nat)
    requires k < EncodedLength(|d|)
    ensures Encode(d)[k] == '=' <==> k >= EncodedLength(|d|) - Padding(|d|)
  {
  }

  lemma LengthComesBack(d: seq<byte>)
    requires d != []
    ensures |Encode(d)| % 4 == 0 && Encode(d) != [] && DecodedLength(Encode(d)) == |d|
  {
    LengthsOf(|d|);
    PaddingIsLast(d, EncodedLength(|d|) - 1);
    PaddingIsLast(d, EncodedLength(|d|) - 2);
  }

  lemma CodeInGroup(table: seq<int>, d: seq<byte>, q: nat, r: nat)
    requires WellBuilt(table) && 4 * q + 4 <= EncodedLength(|d|) && r < 4 && Ascii(Encode(d))
    ensures Code(table, Encode(d)[4 * q + r]) == SixBits(Triple(d, q), r)
  {
    CodeOfEncoded(table, d, 4 * q + r);
    assert (4 * q + r) / 4 == q && (4 * q + r) % 4 == r;
  }

  lemma JoinOfCodes(table: seq<int>, s: string, q: nat, t: nat)
    requires |table| == 256 && Ascii(s) && 4 * q + 4 <= |s| && t < 0x100_0000
    requires Code(table, s[4 * q]) == SixBits(t, 0) && Code(table, s[4 * q + 1]) == SixBits(t, 1)
    requires Code(table, s[4 * q + 2]) == SixBits(t, 2) && Code(table, s[4 * q + 3]) == SixBits(t, 3)
    ensures TextTriple(table, s, q) == t
  {
    SextetsRejoin(t);
  }

  lemma GroupComesBack(table: seq<int>, d: seq<byte>, q: nat)
    requires WellBuilt(table) && 4 * q + 4 <= EncodedLength(|d|) && Ascii(Encode(d))
    ensures TextTriple(table, Encode(d), q) == Triple(d, q)
  {
    CodeInGroup(table, d, q, 0);
    CodeInGroup(table, d, q, 1);
    CodeInGroup(table, d, q, 2);
    CodeInGroup(table, d, q, 3);
    JoinOfCodes(table, Encode(d), q, Triple(d, q));
  }

  lemma OctetComesBack(d: seq<byte>, k: nat)
    requires k < |d|
    ensures EightBits(Triple(d, k / 3), k % 3) == d[k]
    ensures 4 * (k / 3) + 4 <= EncodedLength(|d|)
  {
    var q := k / 3;
    OctetsSplit(Octet(d, 3 * q), Octet(d, 3 * q + 1), Octet(d, 3 * q + 2));
  }

  /** Decoding an encoding gives back every non-empty input. */
  lemma DecodeEncode(table: seq<int>, d: seq<byte>)
    requires WellBuilt(table) && d != []
    ensures Ascii(Encode(d)) && |Encode(d)| % 4 == 0 && Encode(d) != []
    ensures Decode(table, Encode(d)) == d
  {
    EncodedIsAscii(table, d);
    LengthComesBack(d);
    forall k | 0 <= k < |d|
      ensures Decode(table, Encode(d))[k] == d[k]
    {
      OctetComesBack(d, k);
      GroupComesBack(table, d, k / 3);
    }
  }

  /**
   * Canonical text: whole quadruples of letters, one or two '=' allowed at the very end, and the
   * bits the last letter does not need are zero (RFC 4648, sections 3.5 and 4).
   */
  predicate Canonical(s: string) {
    && s != [] && |s| % 4 == 0
    && (forall k | 0 <= k < |s| - 2 :: IsLetter(s[k]))
    && (if s[|s| - 1] != '=' then IsLetter(s[|s| - 2]) && IsLetter(s[|s| - 1])
        else if s[|s| - 2] != '=' then IsLetter(s[|s| - 2]) && Value(s[|s| - 2]) % 4 == 0
        else Value(s[|s| - 3]) % 16 == 0)
  }

  lemma EncodedAt(d: seq<byte>, k: nat)
    requires k < EncodedLength(|d|) - Padding(|d|)
    ensures Encode(d)[k] == Letter(SixBits(Triple(d, k / 4), k % 4))
  {
  }

  lemma EncodedLetter(d: seq<byte>, k: nat)
    requires k < EncodedLength(|d|) - Padding(|d|)
    ensures IsLetter(Encode(d)[k]) && Value(Encode(d)[k]) == SixBits(Triple(d, k / 4), k % 4)
  {
    EncodedAt(d, k);
    LetterIsInjective(SixBits(Triple(d, k / 4), k % 4));
  }

  /** The bits of the last letter that no octet fills. */
  lemma SpareBitsAreZero(d: seq<byte>, q: nat)
    requires d != [] && q == (|d| + 2) / 3 - 1
    ensures |d| % 3 == 1 ==> SixBits(Triple(d, q), 1) % 16 == 0
    ensures |d| % 3 == 2 ==> SixBits(Triple(d, q), 2) % 4 == 0
  {
    if |d| % 3 == 1 {
      assert Triple(d, q) == Octet(d, 3 * q) * 0x1_0000;
      LowBitsOfOne(Octet(d, 3 * q));
    } else if |d| % 3 == 2 {
      assert Triple(d, q) == Octet(d, 3 * q) * 0x1_0000 + Octet(d, 3 * q + 1) * 0x100;
      LowBitsOfTwo(Octet(d, 3 * q), Octet(d, 3 * q + 1));
    }
  }

  lemma EncodedTailIsCanonical(d: seq<byte>, n: nat)
    requires d != [] && n == EncodedLength(|d|)
    ensures |d| % 3 == 1 ==> Value(Encode(d)[n - 3]) % 16 == 0
    ensures |d| % 3 == 2 ==> Value(Encode(d)[n - 2]) % 4 == 0
  {
    var q := (|d| + 2) / 3 - 1;
    SpareBitsAreZero(d, q);
    assert (n - 3) / 4 == q && (n - 3) % 4 == 1 && (n - 2) / 4 == q && (n - 2) % 4 == 2;
    if |d| % 3 == 1 {
      EncodedLetter(d, n - 3);
    } else if |d| % 3 == 2 {
      EncodedLetter(d, n - 2);
    }
  }

  lemma EncodeIsCanonical(d: seq<byte>)
    requires d != []
    ensures Canonical(Encode(d))
  {
    var n := EncodedLength(|d|);
    LengthsOf(|d|);
    forall k | 0 <= k < n - Padding(|d|)
      ensures IsLetter(Encode(d)[k])
    {
      EncodedLetter(d, k);
    }
    PaddingIsLast(d, n - 1);
    PaddingIsLast(d, n - 2);
    EncodedTailIsCanonical(d, n);
  }

  lemma LowBitsOfOne(a: byte)
    ensures SixBits(a * 0x1_0000, 1) % 16 == 0
  {
    assert a * 0x1_0000 / 0x1000 == 16 * a;
  }

  lemma LowBitsOfTwo(a: byte, b: byte)
    ensures SixBits(a * 0x1_0000 + b * 0x100, 2) % 4 == 0
  {
    var u := 256 * a + b;
    assert (a * 0x1_0000 + b * 0x100) / 0x40 == 4 * u;
    MultiplesOfFour(u);
  }

  lemma MultiplesOfFour(u: nat)
    ensures 4 * u % 64 % 4 == 0
  {
    assert 4 * u == 64 * (u / 16) + 4 * (u % 16);
    assert 4 * u % 64 == 4 * (u % 16);
  }

  /** The sextet character k stands for in canonical text. */
  function TextSextet(s: string, k: nat): sextet
    requires Canonical(s) && k < |s|
  {
    if s[k] == '=' then 0 else Value(s[k])
  }

  lemma CanonicalCode(table: seq<int>, s: string, k: nat)
    requires WellBuilt(table) && Canonical(s) && k < |s|
    ensures s[k] < 128 as char && Code(table, s[k]) == TextSextet(s, k)
  {
    if s[k] != '=' {
      assert table[Letter(Value(s[k])) as int] == Value(s[k]);
    }
  }

  lemma CanonicalIsAscii(table: seq<int>, s: string)
    requires WellBuilt(table) && Canonical(s)
    ensures Ascii(s)
  {
    forall k | 0 <= k < |s|
      ensures s[k] < 128 as char
    {
      CanonicalCode(table, s, k);
    }
  }

  lemma OctetsRejoin(t: nat)
    requires t < 0x100_0000
    ensures EightBits(t, 0) * 0x1_0000 + EightBits(t, 1) * 0x100 + EightBits(t, 2) == t
  {
  }

  function Group(s: string, q: nat): nat
    requires Canonical(s) && 4 * q + 4 <= |s|
  {
    Join(TextSextet(s, 4 * q), TextSextet(s, 4 * q + 1), TextSextet(s, 4 * q + 2), TextSextet(s, 4 * q + 3))
  }

  lemma DecodedGroup(table: seq<int>, s: string, q: nat)
    requires WellBuilt(table) && Canonical(s) && 4 * q + 4 <= |s| && Ascii(s)
    ensures TextTriple(table, s, q) == Group(s, q) < 0x100_0000
  {
    CanonicalCode(table, s, 4 * q);
    CanonicalCode(table, s, 4 * q + 1);
    CanonicalCode(table, s, 4 * q + 2);
    CanonicalCode(table, s, 4 * q + 3);
    SextetsSplit(TextSextet(s, 4 * q), TextSextet(s, 4 * q + 1), TextSextet(s, 4 * q + 2), TextSextet(s, 4 * q + 3));
  }

  /** The octets that the padding cuts off are zero, so zero-filling the group restores it. */
  lemma CutOctetsAreZero(s: string, q: nat, r: nat)
    requires Canonical(s) && 4 * q + 4 <= |s| && r < 3 && 3 * q + r >= DecodedLength(s)
    ensures EightBits(Group(s, q), r) == 0
  {
    var a, b, c, d := TextSextet(s, 4 * q), TextSextet(s, 4 * q + 1), TextSextet(s, 4 * q + 2), TextSextet(s, 4 * q + 3);
    assert 4 * q + 4 == |s|;
    if s[|s| - 2] == '=' {
      CutTwo(a, b);
    } else {
      CutOne(a, b, c);
    }
  }

  lemma CutOne(a: sextet, b: sextet, c: sextet)
    requires c % 4 == 0
    ensures EightBits(Join(a, b, c, 0), 2) == 0
  {
    var u := 1024 * a + 16 * b + c / 4;
    JoinFits(a, b, c, 0);
    assert Join(a, b, c, 0) == 0x100 * u;
    WholeOctets(u);
  }

  lemma WholeOctets(u: nat)
    ensures 0x100 * u % 0x100 == 0
  {
  }

  lemma CutTwo(a: sextet, b: sextet)
    requires b % 16 == 0
    ensures EightBits(Join(a, b, 0, 0), 1) == 0 && EightBits(Join(a, b, 0, 0), 2) == 0
  {
    var u := 4 * a + b / 16;
    assert Join(a, b, 0, 0) == 0x1_0000 * u;
    assert 0x1_0000 * u / 0x100 == 0x100 * u;
  }

  lemma InTriple(q: nat, r: nat)
    requires r < 3
    ensures (3 * q + r) / 3 == q && (3 * q + r) % 3 == r
  {
  }

  lemma DecodedAt(table: seq<int>, s: string, q: nat, r: nat)
    requires WellBuilt(table) && Canonical(s) && Ascii(s) && r < 3 && 3 * q + r < DecodedLength(s) && 4 * q + 4 <= |s|
    ensures Decode(table, s)[3 * q + r] == EightBits(TextTriple(table, s, q), r)
  {
    InTriple(q, r);
  }

  lemma DecodedOctet(table: seq<int>, s: string, q: nat, r: nat)
    requires WellBuilt(table) && Canonical(s) && 4 * q + 4 <= |s| && Ascii(s) && r < 3
    ensures Octet(Decode(table, s), 3 * q + r) == EightBits(Group(s, q), r)
  {
    if 3 * q + r < DecodedLength(s) {
      DecodedAt(table, s, q, r);
      DecodedGroup(table, s, q);
    } else {
      CutOctetsAreZero(s, q, r);
    }
  }

  lemma TripleOfOctets(d: seq<byte>, q: nat, t: nat)
    requires t < 0x100_0000
    requires Octet(d, 3 * q) == EightBits(t, 0) && Octet(d, 3 * q + 1) == EightBits(t, 1) && Octet(d, 3 * q + 2) == EightBits(t, 2)
    ensures Triple(d, q) == t
  {
    OctetsRejoin(t);
  }

  lemma DecodedTriple(table: seq<int>, s: string, q: nat)
    requires WellBuilt(table) && Canonical(s) && 4 * q + 4 <= |s| && Ascii(s)
    ensures Triple(Decode(table, s), q) == Group(s, q)
  {
    DecodedOctet(table, s, q, 0);
    DecodedOctet(table, s, q, 1);
    DecodedOctet(table, s, q, 2);
    DecodedGroup(table, s, q);
    TripleOfOctets(Decode(table, s), q, Group(s, q));
  }

  lemma GroupSextet(s: string, q: nat, r: nat)
    requires Canonical(s) && 4 * q + 4 <= |s| && r < 4
    ensures SixBits(Group(s, q), r) == TextSextet(s, 4 * q + r)
  {
    SextetsSplit(TextSextet(s, 4 * q), TextSextet(s, 4 * q + 1), TextSextet(s, 4 * q + 2), TextSextet(s, 4 * q + 3));
  }

  lemma EncodedCharacter(table: seq<int>, s: string, q: nat, r: nat)
    requires WellBuilt(table) && Canonical(s) && 4 * q + 4 <= |s| && Ascii(s) && r < 4
    ensures SixBits(Triple(Decode(table, s), q), r) == TextSextet(s, 4 * q + r)
  {
    DecodedTriple(table, s, q);
    GroupSextet(s, q, r);
  }

  lemma LengthsMatch(s: string)
    requires Canonical(s)
    ensures EncodedLength(DecodedLength(s)) == |s|
    ensures forall k | 0 <= k < |s| :: s[k] == '=' <==> k >= |s| - Padding(DecodedLength(s))
  {
    var m := |s| / 4;
    var pad := 3 * m - DecodedLength(s);
    assert (3 * m - pad + 2) / 3 == m;
    assert Padding(3 * m - pad) == pad;
  }

  lemma InGroup(k: nat, n: nat)
    requires k < n && n % 4 == 0
    ensures 4 * (k / 4) + k % 4 == k && 4 * (k / 4) + 4 <= n
  {
  }

  lemma CharacterComesBack(table: seq<int>, s: string, d: seq<byte>, k: nat)
    requires WellBuilt(table) && Canonical(s) && Ascii(s) && d == Decode(table, s) && k < |s| == EncodedLength(|d|)
    requires s[k] == '=' <==> k >= |s| - Padding(|d|)
    ensures Encode(d)[k] == s[k]
  {
    if s[k] == '=' {
      PaddingIsLast(d, k);
    } else {
      InGroup(k, |s|);
      EncodedCharacter(table, s, k / 4, k % 4);
      EncodedAt(d, k);
    }
  }

  lemma EncodeDecode(table: seq<int>, s: string)
    requires WellBuilt(table) && Canonical(s)
    ensures Ascii(s) && Encode(Decode(table, s)) == s
  {
    CanonicalIsAscii(table, s);
    var d := Decode(table, s);
    LengthsMatch(s);
    forall k | 0 <= k < |s|
      ensures Encode(d)[k] == s[k]
    {
      CharacterComesBack(table, s, d, k);
    }
  }

  /**
   * Encoding a decoding gives back exactly the canonical texts, so the two functions are inverse
   * bijections between non-empty byte sequences and canonical texts.
   */
  lemma EncodeDecodeIff(table: seq<int>, s: string)
    requires WellBuilt(table) && Ascii(s) && |s| % 4 == 0 && s != []
    ensures Encode(Decode(table, s)) == s <==> Canonical(s)
  {
    if Canonical(s) {
      EncodeDecode(table, s);
    }
    if Encode(Decode(table, s)) == s {
      EncodeIsCanonical(Decode(table, s));
    }
  }

  // ----- The same number, in base 256 and in base 64 -----

  /** What character k of an encoding stands for; padding stands for zero. */
  function Standing(s: string, k: nat): nat
    requires k < |s| && (s[k] == '=' || IsLetter(s[k]))
  {
    if s[k] == '=' then 0 else Value(s[k])
  }

  lemma StandsForSextet(d: seq<byte>, q: nat, r: nat)
    requires 4 * q + r < EncodedLength(|d|) && r < 4
    ensures Encode(d)[4 * q + r] == '=' || IsLetter(Encode(d)[4 * q + r])
    ensures Standing(Encode(d), 4 * q + r) == SixBits(Triple(d, q), r)
  {
    var k := 4 * q + r;
    assert k / 4 == q && k % 4 == r;
    PaddingIsLast(d, k);
    if k >= EncodedLength(|d|) - Padding(|d|) {
      PaddedSextetIsZero(d, k);
    } else {
      EncodedLetter(d, k);
    }
  }

  lemma InBase64(t: nat)
    requires t < 0x100_0000
    ensures t == SixBits(t, 0) as int * 0x4_0000 + SixBits(t, 1) as int * 0x1000 + SixBits(t, 2) as int * 0x40 + SixBits(t, 3) as int
  {
    SextetsRejoin(t);
    JoinFits(SixBits(t, 0), SixBits(t, 1), SixBits(t, 2), SixBits(t, 3));
  }

  /** The number three octets are, most significant first, with zero for those that are not there. */
  function InBase256(d: seq<byte>, i: nat): int
    requires i < |d|
  {
    var second := if i + 1 < |d| then d[i + 1] as int else 0;
    var third := if i + 2 < |d| then d[i + 2] as int else 0;
    d[i] as int * 0x1_0000 + second * 0x100 + third
  }

  lemma InBase256IsTriple(d: seq<byte>, q: nat)
    requires 3 * q < |d|
    ensures InBase256(d, 3 * q) == Triple(d, q) && 4 * q + 4 <= EncodedLength(|d|)
  {
    OctetComesBack(d, 3 * q);
    assert 3 * q / 3 == q;
  }

  /** The number the four characters of group q are, padding counting as zero. */
  function InLetters(s: string, q: nat): nat
    requires 4 * q + 4 <= |s| && forall k | 4 * q <= k < 4 * q + 4 :: s[k] == '=' || IsLetter(s[k])
  {
    Standing(s, 4 * q) * 0x4_0000 + Standing(s, 4 * q + 1) * 0x1000 + Standing(s, 4 * q + 2) * 0x40 + Standing(s, 4 * q + 3)
  }

  lemma GroupIsLetters(d: seq<byte>, q: nat)
    requires 4 * q + 4 <= EncodedLength(|d|)
    ensures forall k | 4 * q <= k < 4 * q + 4 :: Encode(d)[k] == '=' || IsLetter(Encode(d)[k])
  {
    forall k | 4 * q <= k < 4 * q + 4
      ensures Encode(d)[k] == '=' || IsLetter(Encode(d)[k])
    {
      StandsForSextet(d, q, k - 4 * q);
    }
  }

  lemma LettersAreTriple(d: seq<byte>, q: nat)
    requires 4 * q + 4 <= EncodedLength(|d|)
    requires forall k | 4 * q <= k < 4 * q + 4 :: Encode(d)[k] == '=' || IsLetter(Encode(d)[k])
    ensures InLetters(Encode(d), q) == Triple(d, q)
  {
    StandsForSextet(d, q, 0);
    StandsForSextet(d, q, 1);
    StandsForSextet(d, q, 2);
    StandsForSextet(d, q, 3);
    InBase64(Triple(d, q));
  }

  /**
   * Section 4 of RFC 4648, without bits: each three octets and the four characters they become are
   * the same number, most significant first.
   */
  lemma SameNumber(d: seq<byte>, q: nat)
    requires 3 * q < |d|
    ensures 4 * q + 4 <= |Encode(d)|
    ensures forall k | 4 * q <= k < 4 * q + 4 :: Encode(d)[k] == '=' || IsLetter(Encode(d)[k])
    ensures InBase256(d, 3 * q) == InLetters(Encode(d), q)
  {
    InBase256IsTriple(d, q);
    GroupIsLetters(d, q);
    LettersAreTriple(d, q);
  }

  // ----- The imperative code -----

  /** build_decoding_table: 64 stores into uninitialised memory. */
  method BuildDecodingTable(table: array<int>)
    requires table.Length == 256
    modifies table
    ensures WellBuilt(table[..])
  {
    var i := 0;
    while i < 64
      invariant 0 <= i <= 64
      invariant forall v: sextet | v < i :: table[Letter(v) as int] == v
    {
      forall v: sextet | v < i
        ensures Letter(v) != Letter(i)
      {
        LetterIsInjective(v);
        LetterIsInjective(i);
      }
      table[Letter(i) as int] := i;
      i := i + 1;
    }
  }

  /** The '=' characters overwrite the end of the text, last one first. */
  method PadText(out: array<char>, padding: nat)
    requires padding <= out.Length
    modifies out
    ensures forall k | 0 <= k < out.Length ::
              out[k] == if k >= out.Length - padding then '=' else old(out[k])
  {
    var i := 0;
    while i < padding
      invariant 0 <= i <= padding
      invariant forall k | 0 <= k < out.Length :: out[k] == if k >= out.Length - i then '=' else old(out[k])
    {
      out[out.Length - 1 - i] := '=';
      i := i + 1;
    }
  }

  /** Four letters for one group. */
  method PutLetters(out: array<char>, j: nat, t: nat)
    requires j + 4 <= out.Length && t < 0x100_0000
    modifies out
    ensures forall r: nat | r < 4 :: out[j + r] == Letter(SixBits(t, r))
    ensures forall k | 0 <= k < j :: out[k] == old(out[k])
  {
    out[j] := Letter(SixBits(t, 0));
    out[j + 1] := Letter(SixBits(t, 1));
    out[j + 2] := Letter(SixBits(t, 2));
    out[j + 3] := Letter(SixBits(t, 3));
  }

  /** The next group of input, and where reading stops. */
  method ReadTriple(data: seq<byte>, from: nat, ghost q: nat) returns (t: nat, i: nat)
    requires from == 3 * q < |data|
    ensures t == Triple(data, q) && i == Min(3 * (q + 1), |data|)
  {
    i := from;
    var a: byte, b: byte, c: byte := 0, 0, 0;
    if i < |data| { a := data[i]; i := i + 1; }
    if i < |data| { b := data[i]; i := i + 1; }
    if i < |data| { c := data[i]; i := i + 1; }
    t := a * 0x1_0000 + b * 0x100 + c;
  }

  /** base64_encode: three octets in, four letters out, then the padding. */
  method EncodeText(data: seq<byte>) returns (out: array<char>)
    ensures fresh(out) && out[..] == Encode(data)
  {
    var n := |data|;
    out := new char[EncodedLength(n)];
    var i: nat, j: nat := 0, 0;
    ghost var q: nat := 0;
    while i < n
      invariant j == 4 * q <= out.Length && i == Min(3 * q, n)
      invariant forall k | 0 <= k < j :: out[k] == Letter(SixBits(Triple(data, k / 4), k % 4))
    {
      var t;
      t, i := ReadTriple(data, i, q);
      PutLetters(out, j, t);
      forall k | j <= k < j + 4
        ensures out[k] == Letter(SixBits(Triple(data, k / 4), k % 4))
      {
        assert out[j + (k - j)] == Letter(SixBits(t, k - j));
      }
      j, q := j + 4, q + 1;
    }
    PadText(out, Padding(n));
  }

  /** Up to three octets of one group, as far as the output has room. */
  method PutOctets(out: array<byte>, from: nat, t: nat) returns (j: nat)
    requires from <= out.Length && t < 0x1_0000_0000
    modifies out
    ensures j == Min(from + 3, out.Length)
    ensures forall k | from <= k < j :: out[k] == EightBits(t, k - from)
    ensures forall k | 0 <= k < from :: out[k] == old(out[k])
  {
    j := from;
    if j < out.Length { out[j] := EightBits(t, 0); j := j + 1; }
    if j < out.Length { out[j] := EightBits(t, 1); j := j + 1; }
    if j < out.Length { out[j] := EightBits(t, 2); j := j + 1; }
  }

  /** Four characters of text as one number. */
  method ReadGroup(table: array<int>, text: string, i: nat, ghost q: nat) returns (t: nat)
    requires table.Length == 256 && Ascii(text) && i == 4 * q && i + 4 <= |text|
    ensures t == TextTriple(table[..], text, q) < 0x1_0000_0000
  {
    t := Join(Code(table[..], text[i]), Code(table[..], text[i + 1]),
              Code(table[..], text[i + 2]), Code(table[..], text[i + 3]));
  }

  /** Octets first .. last of the decoded text are in place. */
  predicate Filled(bytes: seq<byte>, table: seq<int>, text: string, first: nat, last: nat)
    requires |table| == 256 && Ascii(text) && |text| % 4 == 0 && text != [] && last <= |bytes| == DecodedLength(text)
  {
    forall k | first <= k < last :: bytes[k] == Decode(table, text)[k]
  }

  lemma GroupFills(bytes: seq<byte>, table: seq<int>, text: string, q: nat, last: nat, t: nat)
    requires |table| == 256 && Ascii(text) && |text| % 4 == 0 && text != [] && last <= |bytes| == DecodedLength(text)
    requires 4 * q + 4 <= |text| && t == TextTriple(table, text, q) && last <= 3 * q + 3
    requires forall k | 3 * q <= k < last :: bytes[k] == EightBits(t, k - 3 * q)
    ensures Filled(bytes, table, text, 3 * q, last)
  {
    forall k | 3 * q <= k < last
      ensures bytes[k] == Decode(table, text)[k]
    {
      InTriple(q, k - 3 * q);
    }
  }

  /** base64_decode on non-empty text: null unless the length is a multiple of four. */
  method DecodeText(table: array<int>, text: string) returns (out: array?<byte>)
    requires table.Length == 256 && text != [] && Ascii(text)
    ensures out == null <==> |text| % 4 != 0
    ensures out != null ==> fresh(out) && out[..] == Decode(table[..], text)
  {
    if |text| % 4 != 0 {
      return null;
    }
    var length := DecodedLength(text);
    var bytes := new byte[length];
    var i: nat, j: nat := 0, 0;
    ghost var q: nat := 0;
    while i < |text|
      invariant i == 4 * q <= |text| && j == Min(3 * q, length)
      invariant Filled(bytes[..], table[..], text, 0, j)
    {
      var t := ReadGroup(table, text, i, q);
      j := PutOctets(bytes, j, t);
      GroupFills(bytes[..], table[..], text, q, j, t);
      i, q := i + 4, q + 1;
    }
    out := bytes;
  }
}
