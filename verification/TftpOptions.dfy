/** Option negotiation: parsing the request's options, applying them, echoing them in an OACK. */
module TftpOptions {

  /** Packet bytes as characters; past the end the zero-filled packet buffer reads as NUL. */
  datatype Option = Option(name: string, value: string)

  const NUL := '\0'

  /** isprint in the C locale. */
  predicate IsPrint(c: char) {
    ' ' <= c <= '~'
  }

  /** The C string at the front of a buffer: everything before the first NUL. */
  function CString(buf: string): (s: string)
    ensures |s| <= |buf| && NUL !in s && buf[..|s|] == s
    ensures |s| < |buf| ==> buf[|s|] == NUL
  {
    if buf == [] || buf[0] == NUL then [] else [buf[0]] + CString(buf[1..])
  }

  /** The buffer behind the C string and its terminator. */
  function Past(buf: string): string {
    if |CString(buf)| < |buf| then buf[|CString(buf)| + 1..] else []
  }

  function ParseOptions(buf: string): seq<Option>
    decreases |buf|
  {
    if buf == [] || !IsPrint(buf[0]) then []
    else
      var rest := Past(buf);
      [Option(CString(buf), CString(rest))] + ParseOptions(Past(rest))
  }

  function PrintOption(o: Option): string {
    o.name + [NUL] + o.value + [NUL]
  }

  /** The body of an OACK after its opcode. */
  function PrintOptions(options: seq<Option>): string {
    if options == [] then []
    else PrintOption(options[0]) + PrintOptions(options[1..])
  }

  lemma {:induction false} CStringOf(s: string, tail: string)
    requires NUL !in s
    ensures CString(s + [NUL] + tail) == s && Past(s + [NUL] + tail) == tail
  {
    var buf := s + [NUL] + tail;
    if s != [] {
      CStringOf(s[1..], tail);
      assert buf[1..] == s[1..] + [NUL] + tail;
    }
    assert CString(buf) == s;
    assert buf[|s| + 1..] == tail;
  }

  predicate Printable(o: Option) {
    NUL !in o.name && NUL !in o.value && o.name != [] && IsPrint(o.name[0])
  }

  lemma PrintedSplits(options: seq<Option>, tail: string)
    requires options != []
    ensures PrintOptions(options) + tail == PrintOption(options[0]) + (PrintOptions(options[1..]) + tail)
  {
  }

  /** Parsing undoes printing: what a server echoes is what its peer reads. */
  lemma {:induction false} ParsePrint(options: seq<Option>, tail: string)
    requires forall i | 0 <= i < |options| :: Printable(options[i])
    requires tail == [] || !IsPrint(tail[0])
    ensures ParseOptions(PrintOptions(options) + tail) == options
  {
    if options == [] {
      assert PrintOptions(options) + tail == tail;
    } else {
      PrintedSplits(options, tail);
      ParseOne(options[0], PrintOptions(options[1..]) + tail);
      ParsePrint(options[1..], tail);
    }
  }

  lemma ParseOne(o: Option, rest: string)
    requires Printable(o)
    ensures ParseOptions(PrintOption(o) + rest) == [o] + ParseOptions(rest)
  {
    assert PrintOption(o) + rest == o.name + [NUL] + (o.value + [NUL] + rest);
    CStringOf(o.name, o.value + [NUL] + rest);
    CStringOf(o.value, rest);
  }

  lemma BufferSplits(buf: string)
    ensures |CString(buf)| < |buf| ==> buf == CString(buf) + [NUL] + Past(buf)
    ensures |CString(buf)| == |buf| ==> buf == CString(buf) && Past(buf) == []
  {
  }

  lemma Pieces(s: string, v: string, tail: string)
    ensures s + [NUL] + (v + [NUL] + tail) == PrintOption(Option(s, v)) + tail
    ensures PrintOption(Option(s, v)) <= s + [NUL] + v + [NUL, NUL]
    ensures PrintOption(Option(s, [])) <= s + [NUL, NUL]
  {
    assert s + [NUL] + v + [NUL, NUL] == PrintOption(Option(s, v)) + [NUL];
    assert s + [NUL, NUL] == PrintOption(Option(s, []));
  }

  lemma ConsumedPrefix(buf: string, o: Option, tail: string)
    requires o == Option(CString(buf), CString(Past(buf))) && tail == Past(Past(buf))
    ensures tail == [] ==> PrintOption(o) <= buf + [NUL, NUL]
    ensures tail != [] ==> PrintOption(o) + tail == buf
  {
    var rest := Past(buf);
    BufferSplits(buf);
    BufferSplits(rest);
    Pieces(o.name, o.value, tail);
    if |o.name| < |buf| && |o.value| < |rest| {
      PrefixAfter(PrintOption(o), [], tail, buf);
    }
  }

  lemma PrefixAfter(head: string, x: string, tail: string, buf: string)
    requires x <= tail + [NUL, NUL] && head + tail == buf
    ensures head + x <= buf + [NUL, NUL]
  {
    assert buf + [NUL, NUL] == head + (tail + [NUL, NUL]);
  }

  /** And printing gives back the bytes the parser consumed: the echo is literal. */
  lemma {:induction false} PrintParse(buf: string)
    ensures PrintOptions(ParseOptions(buf)) <= buf + [NUL, NUL]
    decreases |buf|
  {
    if buf != [] && IsPrint(buf[0]) {
      var o, tail := Option(CString(buf), CString(Past(buf))), Past(Past(buf));
      PrintParse(tail);
      ConsumedPrefix(buf, o, tail);
      PrintCons(o, ParseOptions(tail));
      if tail != [] {
        PrefixAfter(PrintOption(o), PrintOptions(ParseOptions(tail)), tail, buf);
      }
    }
  }

  lemma PrintCons(o: Option, options: seq<Option>)
    ensures PrintOptions([o] + options) == PrintOption(o) + PrintOptions(options)
  {
    assert ([o] + options)[1..] == options;
  }

  lemma OneMoreOption(done: seq<Option>, buf: string)
    requires buf != [] && IsPrint(buf[0])
    ensures done + ParseOptions(buf)
            == (done + [Option(CString(buf), CString(Past(buf)))]) + ParseOptions(Past(Past(buf)))
  {
  }

  /** The parsing loop of _process_option, which walks one pointer through the packet. */
  method ProcessOption(buf: string) returns (options: seq<Option>)
    ensures options == ParseOptions(buf)
  {
    options := [];
    var tmp := buf;
    while tmp != [] && IsPrint(tmp[0])
      invariant ParseOptions(buf) == options + ParseOptions(tmp)
      decreases |tmp|
    {
      OneMoreOption(options, tmp);
      var name := CString(tmp);
      var rest := Past(tmp);
      var value := CString(rest);
      options := options + [Option(name, value)];
      tmp := Past(rest);
    }
  }

  // ----- Applying the options -----

  predicate IsSpace(c: char) {
    c == ' ' || '\t' <= c <= '\r'
  }

  function Digits(s: string, value: nat): nat {
    if s == [] || !('0' <= s[0] <= '9') then value
    else Digits(s[1..], 10 * value + (s[0] as int - '0' as int))
  }

  /** atoi: leading white space, one sign, digits up to the first other character. */
  function Atoi(s: string): int {
    if s == [] then 0
    else if IsSpace(s[0]) then Atoi(s[1..])
    else if s[0] == '-' then (var n: int := Digits(s[1..], 0); -n)
    else if s[0] == '+' then Digits(s[1..], 0)
    else Digits(s, 0)
  }

  const BLKSIZE := "blksize"
  const WINDOWSIZE := "windowsize"

  /** The value of the last option of the given name, or a default. */
  function LastValue(options: seq<Option>, name: string, default: int): int {
    if options == [] then default
    else
      var last := options[|options| - 1];
      if last.name == name then Atoi(last.value) else LastValue(options[..|options| - 1], name, default)
  }

  predicate InRange(o: Option) {
    && (o.name == BLKSIZE ==> 0 <= Atoi(o.value) <= 65464)
    && (o.name == WINDOWSIZE ==> 0 <= Atoi(o.value) <= 255)
  }

  class Handler {
    var blockSize: int
    var windowSize: int

    constructor ()
      ensures blockSize == 512 && windowSize == 1
    {
      blockSize, windowSize := 512, 1;
    }

    /**
     * __map_options: ok is false when the handler terminates. It does so exactly when some option
     * is out of range, and otherwise each size holds its last occurrence.
     */
    method MapOptions(options: seq<Option>) returns (ok: bool)
      modifies this
      ensures ok <==> forall i | 0 <= i < |options| :: InRange(options[i])
      ensures ok ==> blockSize == LastValue(options, BLKSIZE, old(blockSize))
      ensures ok ==> windowSize == LastValue(options, WINDOWSIZE, old(windowSize))
    {
      var k := 0;
      while k < |options|
        invariant 0 <= k <= |options|
        invariant forall i | 0 <= i < k :: InRange(options[i])
        invariant blockSize == LastValue(options[..k], BLKSIZE, old(blockSize))
        invariant windowSize == LastValue(options[..k], WINDOWSIZE, old(windowSize))
      {
        var o := options[k];
        assert options[..k + 1][..k] == options[..k];
        if o.name == BLKSIZE {
          blockSize := Atoi(o.value);
          if blockSize < 0 || blockSize > 65464 {
            return false;
          }
        }
        if o.name == WINDOWSIZE {
          windowSize := Atoi(o.value);
          if windowSize < 0 || windowSize > 255 {
            return false;
          }
        }
        k := k + 1;
      }
      assert options[..k] == options;
      ok := true;
    }
  }

  /** Sizes that start legal stay legal: what the transfer loops read is always in range. */
  lemma {:induction false} NegotiatedInRange(options: seq<Option>, block: int, window: int)
    requires 0 <= block <= 65464 && 0 <= window <= 255
    requires forall i | 0 <= i < |options| :: InRange(options[i])
    ensures 0 <= LastValue(options, BLKSIZE, block) <= 65464
    ensures 0 <= LastValue(options, WINDOWSIZE, window) <= 255
  {
    if options != [] {
      assert InRange(options[|options| - 1]);
      NegotiatedInRange(options[..|options| - 1], block, window);
    }
  }

  // ----- What atoi reads -----

  function Digit(d: nat): char
    requires d < 10
  {
    '0' + d as char
  }

  /** A number in decimal, as "%d" prints it. */
  function Decimal(n: nat): (s: string)
    ensures s != [] && '0' <= s[0] <= '9'
  {
    if n < 10 then [Digit(n)] else Decimal(n / 10) + [Digit(n % 10)]
  }

  predicate StartsWithDigit(s: string) {
    s != [] && '0' <= s[0] <= '9'
  }

  lemma ReadDigit(d: nat, rest: string, value: nat)
    requires d < 10
    ensures Digits([Digit(d)] + rest, value) == Digits(rest, 10 * value + d)
  {
    assert ([Digit(d)] + rest)[1..] == rest;
  }

  lemma {:induction false} ReadDecimal(n: nat, rest: string)
    ensures Digits(Decimal(n) + rest, 0) == Digits(rest, n)
  {
    if n < 10 {
      ReadDigit(n, rest, 0);
    } else {
      assert Decimal(n) + rest == Decimal(n / 10) + ([Digit(n % 10)] + rest);
      ReadDecimal(n / 10, [Digit(n % 10)] + rest);
      ReadDigit(n % 10, rest, n / 10);
    }
  }

  /** The six characters isspace knows in the C locale. */
  predicate Blank(space: string) {
    forall i | 0 <= i < |space| :: space[i] in {' ', '\t', '\n', '\r', 11 as char, 12 as char}
  }

  lemma {:induction false} SkipBlank(space: string, s: string)
    requires Blank(space)
    ensures Atoi(space + s) == Atoi(s)
  {
    if space == [] {
      assert space + s == s;
    } else {
      assert (space + s)[1..] == space[1..] + s;
      SkipBlank(space[1..], s);
    }
  }

  /**
   * atoi undoes the decimal printer for every number, behind white space and a sign, and before any
   * text that does not go on with a digit.
   */
  lemma AtoiReadsDecimal(space: string, n: nat, rest: string)
    requires Blank(space) && !StartsWithDigit(rest)
    ensures Atoi(space + (Decimal(n) + rest)) == n
    ensures Atoi(space + (['+'] + (Decimal(n) + rest))) == n
    ensures Atoi(space + (['-'] + (Decimal(n) + rest))) == 0 - n
  {
    var digits := Decimal(n) + rest;
    ReadDecimal(n, rest);
    SkipBlank(space, digits);
    SkipBlank(space, ['+'] + digits);
    SkipBlank(space, ['-'] + digits);
    assert (['+'] + digits)[1..] == digits && (['-'] + digits)[1..] == digits;
  }

  /** Text that is no number counts as zero. */
  lemma AtoiOfOther(s: string)
    requires s == [] || (s[0] != '+' && s[0] != '-' && !Blank([s[0]]) && !StartsWithDigit(s))
    ensures Atoi(s) == 0
  {
    if s != [] {
      assert [s[0]][0] == s[0];
    }
  }

  lemma AtoiOfDecimal(n: nat)
    ensures Atoi(Decimal(n)) == n && Atoi(['-'] + Decimal(n)) == 0 - n
  {
    AtoiReadsDecimal([], n, []);
    assert [] + (Decimal(n) + []) == Decimal(n);
    assert [] + (['-'] + (Decimal(n) + [])) == ['-'] + Decimal(n);
  }

  // ----- What MapOptions makes of it -----

  /** The last option of a name decides; without one the default stays. */
  lemma {:induction false} LastDecides(options: seq<Option>, name: string, default: int, k: nat)
    requires k < |options| && options[k].name == name && forall i | k < i < |options| :: options[i].name != name
    ensures LastValue(options, name, default) == Atoi(options[k].value)
  {
    if k < |options| - 1 {
      LastDecides(options[..|options| - 1], name, default, k);
    }
  }

  lemma {:induction false} NoneKeepsDefault(options: seq<Option>, name: string, default: int)
    requires forall i | 0 <= i < |options| :: options[i].name != name
    ensures LastValue(options, name, default) == default
  {
    if options != [] {
      NoneKeepsDefault(options[..|options| - 1], name, default);
    }
  }

  /** RFC 2348 and RFC 7440: which printed sizes are accepted. */
  lemma AcceptedSizes(n: nat, name: string)
    ensures InRange(Option("blksize", Decimal(n))) <==> n <= 65464
    ensures InRange(Option("windowsize", Decimal(n))) <==> n <= 255
    ensures n > 0 ==> !InRange(Option("blksize", ['-'] + Decimal(n))) && !InRange(Option("windowsize", ['-'] + Decimal(n)))
    ensures name != "blksize" && name != "windowsize" ==> InRange(Option(name, Decimal(n)))
  {
    AtoiOfDecimal(n);
    assert "blksize" != "windowsize" by {
      assert |"blksize"| != |"windowsize"|;
    }
  }

  /** A request for both sizes, in either order and with any other options around it. */
  predicate AsksFor(options: seq<Option>, block: nat, window: nat, b: nat, w: nat) {
    && b < |options| && w < |options|
    && options[b] == Option("blksize", Decimal(block)) && options[w] == Option("windowsize", Decimal(window))
    && forall i | 0 <= i < |options| && i != b && i != w :: options[i].name != "blksize" && options[i].name != "windowsize"
  }

  lemma NamesDiffer()
    ensures "blksize" != "windowsize"
  {
    assert |"blksize"| != |"windowsize"|;
  }

  lemma AskedForInRange(options: seq<Option>, block: nat, window: nat, b: nat, w: nat, i: nat)
    requires AsksFor(options, block, window, b, w) && block <= 65464 && window <= 255 && i < |options|
    ensures InRange(options[i])
  {
    AcceptedSizes(block, "");
    AcceptedSizes(window, "");
  }

  /** Such a request is granted exactly as printed, to any handler. */
  method NegotiateSizes(h: Handler, options: seq<Option>, block: nat, window: nat, ghost b: nat, ghost w: nat)
    returns (ok: bool)
    requires AsksFor(options, block, window, b, w) && block <= 65464 && window <= 255
    modifies h
    ensures ok && h.blockSize == block && h.windowSize == window
  {
    NamesDiffer();
    forall i | 0 <= i < |options|
      ensures InRange(options[i])
    {
      AskedForInRange(options, block, window, b, w, i);
    }
    LastDecides(options, "blksize", h.blockSize, b);
    LastDecides(options, "windowsize", h.windowSize, w);
    AtoiOfDecimal(block);
    AtoiOfDecimal(window);
    ok := h.MapOptions(options);
  }

  /** Printable are the 95 characters from space to tilde. */
  lemma PrintableRange(c: char)
    ensures IsPrint(c) <==> 32 <= c as int < 127
  {
  }

  /** The bytes of a request for blksize 8. */
  lemma RequestBytes()
    ensures PrintOptions([Option("blksize", "8")]) == "blksize" + ['\0'] + "8" + ['\0']
  {
    assert PrintOptions([Option("blksize", "8")]) == PrintOption(Option("blksize", "8")) + PrintOptions([]);
  }
}
