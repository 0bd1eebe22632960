/**
 * Conservation: the key/value and token passes put the mark in place of
 * disjoint, increasing spans and copy everything else in order.
 */
module RedactionSpans {
  import opened Bytes
  import opened RedactionSpec
  import K = RedactionKeys
  import T = RedactionTokens

  /** The spans lie between `from` and `end`, in order and without overlap. */
  predicate Increasing(spans: seq<Place>, from: nat, end: nat) {
    if spans == [] then from <= end
    else
      spans[0].Span? && from <= spans[0].start <= spans[0].end <= end &&
      Increasing(spans[1..], spans[0].end, end)
  }

  /** The text from `from` on, with the mark in place of every span. */
  function Splice(text: string, from: nat, spans: seq<Place>): string
    requires Increasing(spans, from, |text|)
    decreases |spans|
  {
    if spans == [] then text[from..]
    else text[from..spans[0].start] + REDACTION + Splice(text, spans[0].end, spans[1..])
  }

  /** The values the key/value pass replaces in the part `s` of a text that starts at `offset`. */
  function KeySpans(s: string, offset: nat): seq<Place>
    decreases |s|
  {
    match NextStep(s)
    case Finish => []
    case Copy(e) => KeySpans(s[e..], offset + e)
    case Replace(a, b) => [Span(offset + a, offset + b)] + KeySpans(s[b..], offset + b)
  }

  /** The tokens the token pass replaces in the part `s` of a text that starts at `offset`. */
  function TokenSpans(s: string, offset: nat): seq<Place>
    decreases |s|
  {
    if s == "" then []
    else if !IsToken(s[0]) then TokenSpans(s[1..], offset + 1)
    else
      var e := Lead(IsToken, s);
      (if IsSensitiveToken(s[..e]) then [Span(offset, offset + e)] else []) + TokenSpans(s[e..], offset + e)
  }

  lemma JoinSlices(text: string, a: nat, b: nat, c: nat)
    requires a <= b <= c <= |text|
    ensures text[a..c] == text[a..b] + text[b..c] && text[a..] == text[a..b] + text[b..]
  {
  }

  lemma {:induction false} WidenSplice(text: string, from: nat, to: nat, spans: seq<Place>)
    requires from <= to <= |text| && Increasing(spans, to, |text|)
    ensures Increasing(spans, from, |text|)
    ensures Splice(text, from, spans) == text[from..to] + Splice(text, to, spans)
  {
    if spans == [] {
      JoinSlices(text, from, to, to);
    } else {
      var a := spans[0].start;
      var rest := Splice(text, spans[0].end, spans[1..]);
      hide Splice, Increasing;
      JoinSlices(text, from, to, a);
      assert (text[from..to] + text[to..a]) + REDACTION + rest == text[from..to] + (text[to..a] + REDACTION + rest);
    }
  }

  lemma {:induction false} AddSpan(text: string, from: nat, a: nat, b: nat, spans: seq<Place>)
    requires from <= a <= b <= |text| && Increasing(spans, b, |text|)
    ensures Increasing([Span(a, b)] + spans, from, |text|)
    ensures Splice(text, from, [Span(a, b)] + spans) == text[from..a] + REDACTION + Splice(text, b, spans)
  {
    var all := [Span(a, b)] + spans;
    assert all[1..] == spans;
  }

  lemma UnfoldKeySpans(s: string, offset: nat)
    ensures match NextStep(s)
            case Finish => KeySpans(s, offset) == []
            case Copy(e) => KeySpans(s, offset) == KeySpans(s[e..], offset + e)
            case Replace(a, b) => KeySpans(s, offset) == [Span(offset + a, offset + b)] + KeySpans(s[b..], offset + b)
  {
    hide NextStep;
  }

  lemma {:induction false} EmptySplice(text: string, from: nat)
    requires from <= |text|
    ensures Increasing([], from, |text|) && Splice(text, from, []) == text[from..]
  {
  }

  lemma {:induction false} KeysConserve(text: string, from: nat)
    requires from <= |text|
    ensures Increasing(KeySpans(text[from..], from), from, |text|)
    ensures RedactKeyValues(text[from..]) == Splice(text, from, KeySpans(text[from..], from))
    decreases |text| - from
  {
    hide *;
    var s := text[from..];
    K.Unfold(s);
    UnfoldKeySpans(s, from);
    match NextStep(s)
    case Finish =>
      EmptySplice(text, from);
    case Copy(e) =>
      assert s[e..] == text[from + e..] && s[..e] == text[from..from + e];
      KeysConserve(text, from + e);
      WidenSplice(text, from, from + e, KeySpans(s[e..], from + e));
    case Replace(a, b) =>
      assert s[b..] == text[from + b..] && s[..a] == text[from..from + a];
      KeysConserve(text, from + b);
      AddSpan(text, from, from + a, from + b, KeySpans(s[b..], from + b));
  }

  /** The key/value pass replaces exactly the spans of `KeySpans`. */
  lemma {:induction false} KeyPassSplices(text: string)
    ensures Increasing(KeySpans(text, 0), 0, |text|)
    ensures RedactKeyValues(text) == Splice(text, 0, KeySpans(text, 0))
  {
    hide KeySpans, RedactKeyValues;
    KeysConserve(text, 0);
    assert text[0..] == text;
  }

  lemma UnfoldTokenSpans(s: string, offset: nat)
    ensures s == "" ==> TokenSpans(s, offset) == []
    ensures s != "" && !IsToken(s[0]) ==> TokenSpans(s, offset) == TokenSpans(s[1..], offset + 1)
  {
    hide IsSensitiveToken;
  }

  lemma TokenSpanTaken(s: string, e: nat, offset: nat)
    requires T.TokenRun(s, 0, e)
    ensures TokenSpans(s, offset) ==
            (if IsSensitiveToken(s[..e]) then [Span(offset, offset + e)] else []) + TokenSpans(s[e..], offset + e)
  {
    hide IsSensitiveToken;
    LeadUnique(IsToken, s, e);
  }

  /** What the token pass makes of the part of the text from a position on. */
  predicate TokensConserved(text: string, from: nat)
    requires from <= |text|
  {
    Increasing(TokenSpans(text[from..], from), from, |text|) &&
    RedactTokens(text[from..]) == Splice(text, from, TokenSpans(text[from..], from))
  }

  lemma NothingConserved(text: string)
    ensures TokensConserved(text, |text|)
  {
    assert text[|text|..] == "";
    EmptySplice(text, |text|);
    T.FirstTokenByte("");
    UnfoldTokenSpans("", |text|);
  }

  lemma ByteConserved(text: string, from: nat)
    requires from < |text| && !IsToken(text[from]) && TokensConserved(text, from + 1)
    ensures TokensConserved(text, from)
  {
    hide RedactTokens, TokenSpans, Increasing, Splice;
    var s := text[from..];
    UnfoldTokenSpans(s, from);
    T.SkipByte(s);
    DropDrop(text, from, 1);
    DropTake(text, from, from, from + 1);
    WidenSplice(text, from, from + 1, TokenSpans(text[from + 1..], from + 1));
  }

  lemma TokenConserved(text: string, from: nat, e: nat)
    requires from <= |text| && T.TokenRun(text[from..], 0, e) && TokensConserved(text, from + e)
    ensures TokensConserved(text, from)
  {
    hide RedactTokens, TokenSpans, Increasing, Splice, IsSensitiveToken;
    var s := text[from..];
    var rest := TokenSpans(text[from + e..], from + e);
    T.TakeToken(s, e);
    TokenSpanTaken(s, e, from);
    DropDrop(text, from, e);
    DropTake(text, from, from, from + e);
    hide T.TokenRun;
    assert text[from..from] == "" && [] + rest == rest;
    AddSpan(text, from, from, from + e, rest);
    WidenSplice(text, from, from + e, rest);
  }

  lemma {:induction false} TokensConserve(text: string, from: nat)
    requires from <= |text|
    ensures TokensConserved(text, from)
    decreases |text| - from
  {
    hide TokensConserved;
    if from == |text| {
      NothingConserved(text);
    } else if !IsToken(text[from]) {
      TokensConserve(text, from + 1);
      ByteConserved(text, from);
    } else {
      var e := T.FirstRun(text[from..]);
      TokensConserve(text, from + e);
      TokenConserved(text, from, e);
    }
  }

  /** The token pass replaces exactly the spans of `TokenSpans`. */
  lemma {:induction false} TokenPassSplices(text: string)
    ensures Increasing(TokenSpans(text, 0), 0, |text|)
    ensures RedactTokens(text) == Splice(text, 0, TokenSpans(text, 0))
  {
    hide TokenSpans, RedactTokens;
    TokensConserve(text, 0);
    assert text[0..] == text;
  }
}
