/** strtok with its hidden state, as the HTTP parser relies on it. */
module Strtok {
  import opened Optional

  function Skip(s: string, delims: string): (t: string)
    ensures |t| <= |s| && (t != [] ==> t[0] !in delims)
  {
    if s != [] && s[0] in delims then Skip(s[1..], delims) else s
  }

  /** The longest prefix free of delimiters. */
  function Span(s: string, delims: string): (p: string)
    ensures |p| <= |s| && p == s[..|p|]
    ensures forall c | c in p :: c !in delims
    ensures |p| < |s| ==> s[|p|] in delims
  {
    if s == [] || s[0] in delims then [] else [s[0]] + Span(s[1..], delims)
  }

  /** One call: the token, if any, and the text the hidden pointer is left at. */
  function Tok(s: string, delims: string): (r: (Option<string>, string))
    ensures r.0.Some? ==> r.0.value != [] && |r.1| < |s|
  {
    var t := Skip(s, delims);
    if t == [] then (None, [])
    else
      var token := Span(t, delims);
      (Some(token), if |token| < |t| then t[|token| + 1..] else [])
  }

  /** All tokens of a text, call after call. */
  function Tokens(s: string, delims: string): seq<string>
    decreases |s|
  {
    var (token, rest) := Tok(s, delims);
    if token.None? then [] else [token.value] + Tokens(rest, delims)
  }

  method SkipDelimiters(text: string, delims: string) returns (s: string)
    ensures s == Skip(text, delims)
  {
    s := text;
    while s != [] && s[0] in delims
      invariant Skip(s, delims) == Skip(text, delims)
      decreases |s|
    {
      s := s[1..];
    }
  }

  method FindDelimiter(s: string, delims: string) returns (i: nat)
    ensures i == |Span(s, delims)|
  {
    i := 0;
    while i < |s| && s[i] !in delims
      invariant 0 <= i <= |s| && |Span(s, delims)| == i + |Span(s[i..], delims)|
    {
      assert s[i..][1..] == s[i + 1..];
      i := i + 1;
    }
  }

  /** The process-wide pointer that strtok(NULL, ..) continues from. */
  class Tokenizer {
    var rest: string

    constructor ()
      ensures rest == []
    {
      rest := [];
    }

    method Strtok(text: Option<string>, delims: string) returns (token: Option<string>)
      modifies this
      ensures (token, rest) == Tok(if text.Some? then text.value else old(rest), delims)
    {
      var s := SkipDelimiters(if text.Some? then text.value else rest, delims);
      if s == [] {
        rest := [];
        return None;
      }
      var i := FindDelimiter(s, delims);
      rest := if i < |s| then s[i + 1..] else [];
      token := Some(s[..i]);
    }
  }

  // ----- Tokens are the non-empty segments -----

  function Split(s: string, d: char): seq<string>
    decreases |s|
  {
    var p := Span(s, [d]);
    if |p| == |s| then [s] else [p] + Split(s[|p| + 1..], d)
  }

  function NonEmpty(segments: seq<string>): seq<string> {
    if segments == [] then []
    else if segments[0] == [] then NonEmpty(segments[1..])
    else [segments[0]] + NonEmpty(segments[1..])
  }

  lemma EmptySegment(s: string, d: char)
    requires s != [] && s[0] == d
    ensures Tokens(s, [d]) == Tokens(s[1..], [d])
    ensures NonEmpty(Split(s, d)) == NonEmpty(Split(s[1..], d))
  {
    assert Skip(s, [d]) == Skip(s[1..], [d]);
    assert Split(s, d) == [[]] + Split(s[1..], d);
    assert ([[]] + Split(s[1..], d))[1..] == Split(s[1..], d);
  }

  lemma LastSegment(s: string, d: char)
    requires Span(s, [d]) == s != []
    ensures Tokens(s, [d]) == [s] == NonEmpty(Split(s, d))
  {
    assert Skip(s, [d]) == s;
    assert Tokens([], [d]) == [];
    assert [s][1..] == [];
  }

  lemma InnerSegment(s: string, d: char, p: string)
    requires p == Span(s, [d]) && 0 < |p| < |s|
    ensures Tokens(s, [d]) == [p] + Tokens(s[|p| + 1..], [d])
    ensures NonEmpty(Split(s, d)) == [p] + NonEmpty(Split(s[|p| + 1..], d))
  {
    assert Skip(s, [d]) == s;
    assert ([p] + Split(s[|p| + 1..], d))[1..] == Split(s[|p| + 1..], d);
  }

  /** Tokenising on one delimiter is splitting and dropping the empty segments. */
  lemma {:induction false} TokensAreSegments(s: string, d: char)
    ensures Tokens(s, [d]) == NonEmpty(Split(s, d))
    decreases |s|
  {
    var p := Span(s, [d]);
    if s == [] {
      assert [s][1..] == [];
    } else if p == [] {
      EmptySegment(s, d);
      TokensAreSegments(s[1..], d);
    } else if |p| == |s| {
      LastSegment(s, d);
    } else {
      InnerSegment(s, d, p);
      TokensAreSegments(s[|p| + 1..], d);
    }
  }
}
