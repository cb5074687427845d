/** Parsing of query strings, form bodies and header fields: src/networking/http/http_request.c. */
module HttpRequest {
  import opened Optional
  import opened Strtok
  import Queue
  import opened SearchTree
  import opened Dictionary

  type Field = (string, string)

  function DropSpace(value: string): string {
    if value != [] && value[0] == ' ' then value[1..] else value
  }

  /**
   * One "key=value" field: the key ends at the first '=' behind any leading ones, the value is
   * the rest, less one leading space. None is the null dereference of a missing value.
   */
  function ParseField(field: string): Option<Field> {
    var (key, rest) := Tok(field, "=");
    var (value, _) := Tok(rest, "");
    if key.None? || value.None? then None else Some((key.value, DropSpace(value.value)))
  }

  /** The fields up to and including the first that cannot be parsed, which ends the process. */
  function ParseFields(fields: seq<string>): Option<seq<Field>> {
    if fields == [] then Some([])
    else
      match ParseField(fields[0])
      case None => None
      case Some(f) =>
        match ParseFields(fields[1..])
        case None => None
        case Some(rest) => Some([f] + rest)
  }

  /** One "Name: value" line; lines without a value are skipped. */
  function ParseHeader(line: string): Option<Field> {
    var (key, rest) := Tok(line, ":");
    var (value, _) := Tok(rest, "");
    if key.None? || value.None? then None
    else
      var v := DropSpace(value.value);
      Some((key.value, if v != [] && v[|v| - 1] == '\r' then v[..|v| - 1] else v))
  }

  function ParseHeaders(lines: seq<string>): seq<Field> {
    if lines == [] then []
    else
      match ParseHeader(lines[0])
      case None => ParseHeaders(lines[1..])
      case Some(f) => [f] + ParseHeaders(lines[1..])
  }

  // ----- When a field parses, and to what -----

  lemma {:induction false} SpanStops(p: string, delims: string, tail: string)
    requires forall c | c in p :: c !in delims
    requires tail == [] || tail[0] in delims
    ensures Span(p + tail, delims) == p
  {
    if p == [] {
      assert p + tail == tail;
    } else {
      assert (p + tail)[1..] == p[1..] + tail;
      SpanStops(p[1..], delims, tail);
    }
  }

  lemma TokOfPair(key: string, d: char, tail: string)
    requires key != [] && d !in key
    ensures Tok(key + [d] + tail, [d]) == (Some(key), tail)
  {
    var s := key + [d] + tail;
    assert s == key + ([d] + tail);
    SpanStops(key, [d], [d] + tail);
    assert Skip(s, [d]) == s;
    assert s[|key| + 1..] == tail;
  }

  lemma TokOfAll(s: string)
    ensures Tok(s, "") == (if s == [] then None else Some(s), [])
  {
    SpanStops(s, "", []);
    assert s + [] == s;
  }

  /** A key and a value that the printed form can carry. */
  predicate Printable(f: Field) {
    && f.0 != [] && '&' !in f.0 && '=' !in f.0
    && f.1 != [] && '&' !in f.1 && f.1[0] != ' '
  }

  function PrintField(f: Field): string {
    f.0 + ['='] + f.1
  }

  lemma ParsePrintedField(f: Field)
    requires Printable(f)
    ensures ParseField(PrintField(f)) == Some(f)
  {
    TokOfPair(f.0, '=', f.1);
    TokOfAll(f.1);
  }

  /**
   * A field parses exactly when, behind any leading '=', a '=' occurs and something follows it;
   * otherwise the value pointer is null and reading its first character ends the process.
   */
  lemma FieldParsesIff(field: string)
    ensures ParseField(field).Some? <==>
            var t := Skip(field, "="); |Span(t, "=")| + 1 < |t|
  {
    var t := Skip(field, "=");
    if t != [] {
      var key := Span(t, "=");
      var rest := if |key| < |t| then t[|key| + 1..] else [];
      TokOfAll(rest);
    } else {
      TokOfAll([]);
    }
  }

  /** The shortest form that ends the process: a key alone. */
  lemma KeyAloneFails()
    ensures ParseField("a") == None && ParseFields(["a"]) == None
  {
    assert Span("a", "=") == "a" by {
      assert "a"[1..] == "";
    }
    FieldParsesIff("a");
  }

  lemma {:induction false} ParsesWhenEachDoes(fields: seq<string>)
    ensures ParseFields(fields).Some? <==> forall i | 0 <= i < |fields| :: ParseField(fields[i]).Some?
  {
    if fields != [] {
      ParsesWhenEachDoes(fields[1..]);
      assert forall i | 0 < i < |fields| :: fields[i] == fields[1..][i - 1];
    }
  }

  lemma {:induction false} ParsesToEach(fields: seq<string>, parsed: seq<Field>)
    requires ParseFields(fields) == Some(parsed)
    ensures |parsed| == |fields| && forall i | 0 <= i < |fields| :: Some(parsed[i]) == ParseField(fields[i])
  {
    if fields != [] {
      ParsesToEach(fields[1..], parsed[1..]);
      forall i | 0 < i < |fields|
        ensures Some(parsed[i]) == ParseField(fields[i])
      {
        assert fields[i] == fields[1..][i - 1] && parsed[i] == parsed[1..][i - 1];
      }
    }
  }

  /** Parsing succeeds exactly when each field parses, and then yields each field's own parse. */
  lemma ParseFieldsAll(fields: seq<string>)
    ensures ParseFields(fields).Some? <==> forall i | 0 <= i < |fields| :: ParseField(fields[i]).Some?
    ensures ParseFields(fields).Some? ==>
              |ParseFields(fields).value| == |fields|
              && forall i | 0 <= i < |fields| :: Some(ParseFields(fields).value[i]) == ParseField(fields[i])
  {
    ParsesWhenEachDoes(fields);
    if ParseFields(fields).Some? {
      ParsesToEach(fields, ParseFields(fields).value);
    }
  }

  // ----- What is dropped around keys and values -----

  lemma TokSkips(d: char, s: string)
    ensures Tok([d] + s, [d]) == Tok(s, [d])
  {
    assert ([d] + s)[1..] == s;
    assert Skip([d] + s, [d]) == Skip(s, [d]);
  }

  /** Leading '=' are no part of the key, one leading space no part of the value; a later '=' is. */
  lemma FieldAround(key: string, value: string)
    requires key != [] && '=' !in key && value != []
    ensures ParseField(key + ['='] + value) == Some((key, if value[0] == ' ' then value[1..] else value))
    ensures ParseField(['='] + (key + ['='] + value)) == ParseField(key + ['='] + value)
  {
    TokOfPair(key, '=', value);
    TokOfAll(value);
    TokSkips('=', key + ['='] + value);
  }

  lemma HeaderOfTail(key: string, tail: string)
    requires key != [] && ':' !in key && tail != []
    ensures var v := DropSpace(tail);
            ParseHeader(key + [':'] + tail) == Some((key, if v != [] && v[|v| - 1] == '\r' then v[..|v| - 1] else v))
  {
    TokOfPair(key, ':', tail);
    TokOfAll(tail);
  }

  /** A header line, with or without the space and the carriage return. */
  lemma HeaderAround(key: string, gap: string, value: string, end: string)
    requires key != [] && ':' !in key && (gap == "" || gap == " ") && (end == "" || end == "\r")
    requires gap == "" ==> value == [] || value[0] != ' '
    requires end == "" ==> value == [] || value[|value| - 1] != '\r'
    requires gap + value + end != []
    ensures ParseHeader(key + [':'] + (gap + value + end)) == Some((key, value))
  {
    HeaderOfTail(key, gap + value + end);
    TailIsTrimmed(gap, value, end);
  }

  lemma TailIsTrimmed(gap: string, value: string, end: string)
    requires (gap == "" || gap == " ") && (end == "" || end == "\r")
    requires gap == "" ==> value == [] || value[0] != ' '
    requires end == "" ==> value == [] || value[|value| - 1] != '\r'
    ensures var v := DropSpace(gap + value + end);
            v == value + end && value == if v != [] && v[|v| - 1] == '\r' then v[..|v| - 1] else v
  {
    var tail := gap + value + end;
    if gap == " " {
      assert tail[1..] == value + end;
    } else {
      assert tail == value + end;
    }
    if end == "\r" {
      assert (value + end)[..|value|] == value;
    } else {
      assert value + end == value;
    }
  }

  /** A line has a header exactly when, behind leading ':', a ':' occurs and something follows it. */
  lemma HeaderParsesIff(line: string)
    ensures ParseHeader(line).Some? <==> var t := Skip(line, ":"); |Span(t, ":")| + 1 < |t|
  {
    var t := Skip(line, ":");
    if t != [] {
      TokOfAll(if |Span(t, ":")| < |t| then t[|Span(t, ":")| + 1..] else []);
    } else {
      TokOfAll([]);
    }
  }

  /** The field of one line, if it has any. */
  function OfLine(line: string): seq<Field> {
    if ParseHeader(line).Some? then [ParseHeader(line).value] else []
  }

  lemma HeadersCons(line: string, rest: seq<string>)
    ensures ParseHeaders([line] + rest) == OfLine(line) + ParseHeaders(rest)
  {
    assert ([line] + rest)[1..] == rest;
  }

  lemma HeadersConsBoth(lines: seq<string>, more: seq<string>) returns (first: seq<Field>)
    requires lines != []
    ensures ParseHeaders(lines) == first + ParseHeaders(lines[1..])
    ensures ParseHeaders(lines + more) == first + ParseHeaders(lines[1..] + more)
  {
    HeadersCons(lines[0], lines[1..]);
    HeadersCons(lines[0], lines[1..] + more);
    assert lines == [lines[0]] + lines[1..];
    assert lines + more == [lines[0]] + (lines[1..] + more);
    first := OfLine(lines[0]);
  }

  lemma ThreeParts(x: seq<Field>, y: seq<Field>, z: seq<Field>)
    ensures x + y + z == x + (y + z)
  {
  }

  /** Lines are taken one by one: those without a value are dropped, the others keep their order. */
  lemma {:induction false} HeadersOneByOne(a: seq<string>, b: seq<string>)
    ensures ParseHeaders(a + b) == ParseHeaders(a) + ParseHeaders(b)
  {
    if a == [] {
      assert a + b == b;
    } else {
      var first := HeadersConsBoth(a, b);
      HeadersOneByOne(a[1..], b);
      ThreeParts(first, ParseHeaders(a[1..]), ParseHeaders(b));
    }
  }

  // ----- Undoing the printer -----

  /** Fields joined by '&'. */
  function PrintFields(fields: seq<Field>): string {
    if fields == [] then []
    else if |fields| == 1 then PrintField(fields[0])
    else PrintField(fields[0]) + ['&'] + PrintFields(fields[1..])
  }

  function PrintedFields(fields: seq<Field>): (p: seq<string>)
    ensures |p| == |fields|
  {
    seq(|fields|, i requires 0 <= i < |fields| => PrintField(fields[i]))
  }

  lemma TokOfLast(s: string, d: char)
    requires s != [] && d !in s
    ensures Tok(s, [d]) == (Some(s), [])
  {
    SpanStops(s, [d], []);
    assert s + [] == s;
    assert Skip(s, [d]) == s;
  }

  lemma TokensOfOne(s: string, d: char)
    requires s != [] && d !in s
    ensures Tokens(s, [d]) == [s]
  {
    TokOfLast(s, d);
    assert Tokens([], [d]) == [];
  }

  lemma TokensOfPair(s: string, d: char, tail: string)
    requires s != [] && d !in s
    ensures Tokens(s + [d] + tail, [d]) == [s] + Tokens(tail, [d])
  {
    TokOfPair(s, d, tail);
  }

  lemma FieldIsOneToken(f: Field)
    requires Printable(f)
    ensures PrintField(f) != [] && '&' !in PrintField(f)
  {
  }

  lemma PrintedInOrder(fields: seq<Field>)
    requires fields != []
    ensures PrintedFields(fields) == [PrintField(fields[0])] + PrintedFields(fields[1..])
  {
  }

  lemma FirstTokenOfPrinted(fields: seq<Field>)
    requires |fields| > 1 && Printable(fields[0])
    ensures Tokens(PrintFields(fields), "&") == [PrintField(fields[0])] + Tokens(PrintFields(fields[1..]), "&")
  {
    FieldIsOneToken(fields[0]);
    TokensOfPair(PrintField(fields[0]), '&', PrintFields(fields[1..]));
  }

  lemma {:induction false} TokensOfPrinted(fields: seq<Field>)
    requires forall i | 0 <= i < |fields| :: Printable(fields[i])
    ensures Tokens(PrintFields(fields), "&") == PrintedFields(fields)
  {
    if |fields| == 1 {
      FieldIsOneToken(fields[0]);
      TokensOfOne(PrintField(fields[0]), '&');
    } else if |fields| > 1 {
      FirstTokenOfPrinted(fields);
      TokensOfPrinted(fields[1..]);
      PrintedInOrder(fields);
    }
  }

  lemma FieldsOfPrinted(fields: seq<Field>)
    requires forall i | 0 <= i < |fields| :: Printable(fields[i])
    ensures ParseFields(PrintedFields(fields)) == Some(fields)
  {
    var texts := PrintedFields(fields);
    forall i | 0 <= i < |fields|
      ensures ParseField(texts[i]) == Some(fields[i])
    {
      ParsePrintedField(fields[i]);
    }
    ParseFieldsAll(texts);
    var parsed := ParseFields(texts).value;
    assert forall i | 0 <= i < |fields| :: Some(parsed[i]) == ParseField(texts[i]);
    assert parsed == fields;
  }

  /** The fields of a form-encoded text. */
  function ParseForm(text: string): Option<seq<Field>> {
    ParseFields(Tokens(text, "&"))
  }

  /** Parsing undoes printing, in order and with repeats. */
  lemma ParsePrint(fields: seq<Field>)
    requires forall i | 0 <= i < |fields| :: Printable(fields[i])
    ensures ParseForm(PrintFields(fields)) == Some(fields)
  {
    TokensOfPrinted(fields);
    FieldsOfPrinted(fields);
  }

  /** The tokenising passes amount to splitting at '&', dropping empty pieces, and parsing each. */
  lemma FormIsSplit(text: string)
    ensures ParseForm(text) == ParseFields(NonEmpty(Split(text, '&')))
  {
    TokensAreSegments(text, '&');
  }

  // ----- The imperative code -----

  /** What parsing yields: the fields already inserted, then those still queued. */
  function Behind(done: seq<Field>, queued: seq<string>): Option<seq<Field>> {
    var rest := ParseFields(queued);
    if rest.None? then None else Some(done + rest.value)
  }

  /** The tokens still to come when one has just been read. */
  function Remaining(field: Option<string>, rest: string, delims: string): seq<string> {
    if field.None? then [] else [field.value] + Tokens(rest, delims)
  }

  lemma RemainingStep(done: seq<string>, field: string, rest: string, delims: string)
    ensures var (next, rest') := Tok(rest, delims);
            done + Remaining(Some(field), rest, delims) == (done + [field]) + Remaining(next, rest', delims)
  {
  }

  /** First pass: every token of the text into a queue. */
  method Collect(tok: Tokenizer, text: Option<string>, delims: string) returns (q: Queue.Queue<string>)
    modifies tok
    ensures q.Valid() && fresh(q.Repr)
    ensures q.contents == Tokens(if text.Some? then text.value else old(tok.rest), delims)
  {
    ghost var all := Tokens(if text.Some? then text.value else tok.rest, delims);
    q := new Queue.Queue<string>();
    var field := tok.Strtok(text, delims);
    while field.Some?
      invariant q.Valid() && fresh(q.Repr)
      invariant all == q.contents + Remaining(field, tok.rest, delims)
      decreases if field.Some? then |tok.rest| + 1 else 0
    {
      RemainingStep(q.contents, field.value, tok.rest, delims);
      q.Push(field.value);
      field := tok.Strtok(None, delims);
    }
  }

  /** Key and value of one field, read through the shared tokenizer. */
  method ReadField(tok: Tokenizer, field: string) returns (f: Option<Field>)
    modifies tok
    ensures f == ParseField(field)
  {
    var key := tok.Strtok(Some(field), "=");
    var value := tok.Strtok(None, "");
    if key.None? || value.None? {
      return None;
    }
    f := Some((key.value, DropSpace(value.value)));
  }

  lemma BehindStep(done: seq<Field>, queued: seq<string>)
    requires queued != []
    ensures ParseField(queued[0]).None? ==> Behind(done, queued) == None
    ensures ParseField(queued[0]).Some? ==> Behind(done, queued) == Behind(done + [ParseField(queued[0]).value], queued[1..])
  {
    if ParseField(queued[0]).Some? && ParseFields(queued[1..]).Some? {
      var f, rest := ParseField(queued[0]).value, ParseFields(queued[1..]).value;
      assert done + ([f] + rest) == (done + [f]) + rest;
    }
  }

  lemma BehindEnds(fields: seq<Field>, queued: seq<string>)
    ensures Behind([], queued) == ParseFields(queued) && Behind(fields, []) == Some(fields)
  {
    assert fields + [] == fields;
    assert ParseFields(queued).Some? ==> [] + ParseFields(queued).value == ParseFields(queued).value;
  }

  /** The queue and the dictionary a parsing loop works on, apart from the tokenizer. */
  ghost predicate Apart(tok: Tokenizer, fields: Queue.Queue<string>, dict: Dictionary<string>)
    reads fields, fields.Repr, dict, dict.Repr
  {
    && fields.Valid() && dict.Valid()
    && fields.Repr !! dict.Repr && tok !in fields.Repr && tok !in dict.Repr
  }

  /** Insert the field and move on to the next one in the queue. */
  method Store(ghost tok: Tokenizer, fields: Queue.Queue<string>, dict: Dictionary<string>, f: Field)
    requires Apart(tok, fields, dict)
    modifies fields.Repr, dict.Repr
    ensures Apart(tok, fields, dict)
    ensures fresh(fields.Repr - old(fields.Repr)) && fresh(dict.Repr - old(dict.Repr))
    ensures dict.history == old(dict.history) + [f] && fields.contents == Queue.Popped(old(fields.contents))
  {
    dict.Insert(f.0, f.1);
    fields.Pop();
  }

  /** The second pass over one queued field; ok is false where a null value is dereferenced. */
  method TakeField(tok: Tokenizer, fields: Queue.Queue<string>, dict: Dictionary<string>) returns (ok: bool)
    requires Apart(tok, fields, dict) && fields.contents != []
    modifies tok, fields.Repr, dict.Repr
    ensures Apart(tok, fields, dict)
    ensures fresh(fields.Repr - old(fields.Repr)) && fresh(dict.Repr - old(dict.Repr))
    ensures ok <==> ParseField(old(fields.contents[0])).Some?
    ensures ok ==> dict.history == old(dict.history) + [ParseField(old(fields.contents[0])).value]
    ensures ok ==> fields.contents == old(fields.contents)[1..]
  {
    var field := fields.Peek();
    var f := ReadField(tok, field.value);
    if f.None? {
      return false;
    }
    Store(tok, fields, dict, f.value);
    ok := true;
  }

  /** The second pass over one queued line. */
  method TakeHeader(tok: Tokenizer, headers: Queue.Queue<string>, dict: Dictionary<string>)
    requires Apart(tok, headers, dict) && headers.contents != []
    modifies tok, headers.Repr, dict.Repr
    ensures Apart(tok, headers, dict)
    ensures fresh(headers.Repr - old(headers.Repr)) && fresh(dict.Repr - old(dict.Repr))
    ensures headers.contents == old(headers.contents)[1..]
    ensures var f := ParseHeader(old(headers.contents[0]));
            dict.history == old(dict.history) + if f.Some? then [f.value] else []
  {
    var header := headers.Peek();
    var f := ReadHeader(tok, header.value);
    if f.Some? {
      Store(tok, headers, dict, f.value);
    } else {
      headers.Pop();
    }
  }

  /** The loop over the queued fields. */
  method TakeAll(tok: Tokenizer, fields: Queue.Queue<string>, dict: Dictionary<string>) returns (ok: bool)
    requires Apart(tok, fields, dict) && dict.history == []
    modifies tok, fields.Repr, dict.Repr
    ensures dict.Valid() && fresh(dict.Repr - old(dict.Repr))
    ensures ok <==> ParseFields(old(fields.contents)).Some?
    ensures ok ==> Some(dict.history) == ParseFields(old(fields.contents))
  {
    ghost var form := Behind([], fields.contents);
    BehindEnds([], fields.contents);
    var field := fields.Peek();
    while field.Some?
      invariant Apart(tok, fields, dict)
      invariant fresh(fields.Repr - old(fields.Repr)) && fresh(dict.Repr - old(dict.Repr))
      invariant field == Queue.Peeked(fields.contents)
      invariant form == Behind(dict.history, fields.contents)
      decreases |fields.contents|
    {
      BehindStep(dict.history, fields.contents);
      ok := TakeField(tok, fields, dict);
      if !ok {
        return;
      }
      field := fields.Peek();
    }
    BehindEnds(dict.history, []);
    ok := true;
  }

  /**
   * extract_request_query, and extract_body once a content type is known: collect the fields, then
   * insert them one by one. ok is false where the C code dereferences a null value.
   */
  method ExtractForm(tok: Tokenizer, text: Option<string>) returns (dict: Dictionary<string>, ok: bool)
    modifies tok
    ensures dict.Valid() && fresh(dict.Repr)
    ensures ok <==> ParseForm(if text.Some? then text.value else old(tok.rest)).Some?
    ensures ok ==> Some(dict.history) == ParseForm(if text.Some? then text.value else old(tok.rest))
  {
    dict := new Dictionary<string>();
    var fields := Collect(tok, text, "&");
    ok := TakeAll(tok, fields, dict);
  }

  /** The loop over the queued lines. */
  method TakeAllHeaders(tok: Tokenizer, headers: Queue.Queue<string>, dict: Dictionary<string>)
    requires Apart(tok, headers, dict) && dict.history == []
    modifies tok, headers.Repr, dict.Repr
    ensures dict.Valid() && fresh(dict.Repr - old(dict.Repr))
    ensures dict.history == ParseHeaders(old(headers.contents))
  {
    ghost var all := ParseHeaders(headers.contents);
    var header := headers.Peek();
    while header.Some?
      invariant Apart(tok, headers, dict)
      invariant fresh(headers.Repr - old(headers.Repr)) && fresh(dict.Repr - old(dict.Repr))
      invariant header == Queue.Peeked(headers.contents)
      invariant all == dict.history + ParseHeaders(headers.contents)
      decreases |headers.contents|
    {
      HeadersStep(dict.history, headers.contents);
      TakeHeader(tok, headers, dict);
      header := headers.Peek();
    }
  }

  /** extract_header_fields: the same two passes over lines; a line without a value is dropped. */
  method ExtractHeaders(tok: Tokenizer, text: string) returns (dict: Dictionary<string>)
    modifies tok
    ensures dict.Valid() && fresh(dict.Repr)
    ensures dict.history == ParseHeaders(Tokens(text, "\n"))
  {
    dict := new Dictionary<string>();
    var headers := Collect(tok, Some(text), "\n");
    TakeAllHeaders(tok, headers, dict);
  }

  lemma HeadersStep(done: seq<Field>, lines: seq<string>)
    requires lines != []
    ensures var f := ParseHeader(lines[0]);
            done + ParseHeaders(lines) == (done + if f.Some? then [f.value] else []) + ParseHeaders(lines[1..])
  {
  }

  method ReadHeader(tok: Tokenizer, line: string) returns (f: Option<Field>)
    modifies tok
    ensures f == ParseHeader(line)
  {
    var key := tok.Strtok(Some(line), ":");
    var value := tok.Strtok(None, "");
    if key.None? || value.None? {
      return None;
    }
    var v := DropSpace(value.value);
    if v != [] && v[|v| - 1] == '\r' {
      v := v[..|v| - 1];
    }
    f := Some((key.value, v));
  }

  /** extract_body: without a Content-Type header the body is ignored. */
  method ExtractBody(tok: Tokenizer, headers: Dictionary<string>, body: Option<string>)
    returns (dict: Dictionary<string>, ok: bool)
    requires headers.Valid()
    modifies tok
    ensures dict.Valid() && fresh(dict.Repr)
    ensures Lookup(headers.history, "Content-Type").None? ==> ok && dict.history == []
    ensures Lookup(headers.history, "Content-Type").Some? ==>
              var form := ParseForm(if body.Some? then body.value else old(tok.rest));
              (ok <==> form.Some?) && (ok ==> Some(dict.history) == form)
  {
    var contentType := headers.Search("Content-Type");
    if contentType.None? {
      dict := new Dictionary<string>();
      return dict, true;
    }
    dict, ok := ExtractForm(tok, body);
  }

  // ----- Header lines -----

  predicate PrintableHeader(f: Field) {
    && f.0 != [] && ':' !in f.0 && '\n' !in f.0
    && '\n' !in f.1 && (f.1 != [] ==> f.1[|f.1| - 1] != '\r')
  }

  function PrintHeader(f: Field): string {
    f.0 + [':'] + ([' '] + f.1 + ['\r'])
  }

  lemma ParsePrintedHeader(f: Field)
    requires PrintableHeader(f)
    ensures ParseHeader(PrintHeader(f)) == Some(f)
  {
    var tail := [' '] + f.1 + ['\r'];
    TokOfPair(f.0, ':', tail);
    TokOfAll(tail);
    assert tail[1..] == f.1 + ['\r'];
  }

  function PrintHeaders(fields: seq<Field>): string {
    if fields == [] then [] else PrintHeader(fields[0]) + ['\n'] + PrintHeaders(fields[1..])
  }

  /** "Name: value\r\n" lines come back as their names and values, in order. */
  lemma {:induction false} ParsePrintHeaders(fields: seq<Field>)
    requires forall i | 0 <= i < |fields| :: PrintableHeader(fields[i])
    ensures ParseHeaders(Tokens(PrintHeaders(fields), "\n")) == fields
  {
    if fields != [] {
      var line, rest := PrintHeader(fields[0]), PrintHeaders(fields[1..]);
      TokOfPair(line, '\n', rest);
      ParsePrintedHeader(fields[0]);
      ParsePrintHeaders(fields[1..]);
      assert ([line] + Tokens(rest, "\n"))[1..] == Tokens(rest, "\n");
      assert [fields[0]] + fields[1..] == fields;
    }
  }

  /** Printed forms come back as the first-insert-wins dictionary of their fields. */
  lemma PrintedFormLookup(fields: seq<Field>, i: nat)
    requires forall j | 0 <= j < |fields| :: Printable(fields[j])
    requires i < |fields| && forall j | 0 <= j < i :: fields[j].0 != fields[i].0
    ensures ParseForm(PrintFields(fields)).Some?
    ensures Lookup(ParseForm(PrintFields(fields)).value, fields[i].0) == Some(fields[i].1)
    ensures Keys(ParseForm(PrintFields(fields)).value) == Keys(fields)
  {
    ParsePrint(fields);
    EarliestInsertWins(fields, i);
  }
}
