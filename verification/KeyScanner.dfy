/**
 * The index scans of the key/value pass. Each scan is tied to the function on
 * the rest of the text that says what it finds, and leaves its index where the
 * text may be sliced.
 */
module KeyScanner {
  import opened Bytes
  import opened Utf8
  import opened RedactionSpec
  import K = RedactionKeys
  import F = KeyForms

  datatype Identifier = NoIdentifier | Identifier(start: nat, end: nat, key: string)

  /** A place found in the rest of a text, as a place in the text. */
  function Shift(p: Place, offset: nat): Place {
    match p
    case Missing => Missing
    case Span(a, b) => Span(offset + a, offset + b)
  }

  /** A run of identifier bytes starts at position `i`. */
  predicate RunStarts(text: string, i: nat) {
    i < |text| && IsIdentifier(text[i]) && (i == 0 || !IsIdentifier(text[i - 1]))
  }

  method NextIdentifier(text: string, startAt: nat) returns (r: Identifier)
    requires ValidUtf8(text) && startAt <= |text|
    ensures r.NoIdentifier? ==> forall i: nat | startAt <= i :: !RunStarts(text, i)
    ensures r.Identifier? ==>
              startAt <= r.start && K.IdentifierRun(text, r.start, r.end) &&
              r.key == NormalizeKey(text[r.start..r.end]) &&
              forall i: nat | startAt <= i < r.start :: !RunStarts(text, i)
  {
    hide ValidUtf8, NormalizeKey;
    var index := startAt;
    while index < |text|
      invariant startAt <= index <= |text|
      invariant forall i: nat | startAt <= i < index :: !RunStarts(text, i)
    {
      if IsIdentifier(text[index]) && (index == 0 || !IsIdentifier(text[index - 1])) {
        var start := index;
        while index < |text| && IsIdentifier(text[index])
          invariant start <= index <= |text|
          invariant forall i | start <= i < index :: IsIdentifier(text[i])
        {
          index := index + 1;
        }
        EdgeIsBoundary(text, start);
        EdgeIsBoundary(text, index);
        var normalized := NormalizeKey(Slice(text, start, index));
        return Identifier(start, index, normalized);
      }
      index := index + 1;
    }
    return NoIdentifier;
  }

  method SkipSpaces(text: string, startAt: nat) returns (index: nat)
    requires startAt <= |text|
    ensures index == startAt + Lead(IsSpace, text[startAt..])
  {
    index := startAt;
    while index < |text| && IsSpace(text[index])
      invariant startAt <= index <= |text|
      invariant forall i | startAt <= i < index :: IsSpace(text[i])
    {
      index := index + 1;
    }
    LeadUnique(IsSpace, text[startAt..], index - startAt);
  }

  lemma DelimiterPositions(text: string, startAt: nat)
    requires startAt <= |text|
    ensures var d := Shift(Delimiter(text[startAt..]), startAt);
            forall i: nat :: d == Span(i, i + 1) <==> F.DelimiterAt(text, startAt, i)
  {
    hide Delimiter;
    forall i: nat
      ensures Shift(Delimiter(text[startAt..]), startAt) == Span(i, i + 1) <==> F.DelimiterAt(text, startAt, i)
    {
      if startAt <= i < |text| {
        F.DelimiterInSuffix(text, startAt, i);
        F.DelimiterExactlyWhen(text[startAt..], i - startAt);
      } else {
        hide F.BlanksAndQuote;
      }
    }
  }

  method NextKeyValueDelimiter(text: string, startAt: nat) returns (d: Place)
    requires startAt <= |text|
    ensures forall i: nat :: d == Span(i, i + 1) <==> F.DelimiterAt(text, startAt, i)
    ensures d.Span? ==> d.end == d.start + 1
    ensures d == Shift(Delimiter(text[startAt..]), startAt)
  {
    hide Lead, F.DelimiterAt;
    DelimiterPositions(text, startAt);
    ghost var u := text[startAt..];
    var index := SkipSpaces(text, startAt);
    if index < |text| && text[index] == '"' {
      index := index + 1;
      assert u[index - startAt..] == text[index..];
      index := SkipSpaces(text, index);
    }
    assert index - startAt == DelimiterProbe(u);
    if index < |text| && IsDelimiter(text[index]) {
      return Span(index, index + 1);
    } else {
      return Missing;
    }
  }

  /** One byte of a quoted value, or two, as a step from one position of the text to another. */
  lemma QuotedAt(text: string, i: nat, quote: char)
    requires i < |text|
    ensures var end := i + QuotedLen(quote, text[i..]);
            if text[i] == '\\' then
              (if |text| < i + 2 then end == |text| else end == i + 2 + QuotedLen(quote, text[i + 2..]))
            else if text[i] == quote then end == i
            else end == i + 1 + QuotedLen(quote, text[i + 1..])
  {
    DropDrop(text, i, 1);
    if i + 2 <= |text| {
      DropDrop(text, i, 2);
    }
  }

  lemma QuotedNothing(quote: char)
    ensures QuotedLen(quote, "") == 0
  {
  }

  method QuotedValueBounds(text: string, quoteStart: nat) returns (start: nat, end: nat)
    requires quoteStart < |text|
    ensures start == quoteStart + 1
    ensures end == start + QuotedLen(text[quoteStart], text[start..])
  {
    hide QuotedLen;
    var quote := text[quoteStart];
    var index := quoteStart + 1;
    start := index;
    QuotedNothing(quote);
    assert text[|text|..] == "";
    ghost var target := start + QuotedLen(quote, text[start..]);
    while index < |text|
      invariant start <= index <= |text| + 1
      invariant index <= |text| ==> index + QuotedLen(quote, text[index..]) == target
      invariant |text| < index ==> target == |text|
    {
      QuotedAt(text, index, quote);
      if text[index] == '\\' {
        index := index + 2;
        continue;
      }
      if text[index] == quote {
        return start, index;
      }
      index := index + 1;
    }
    return start, |text|;
  }

  /** One byte of a bracketed value. */
  lemma BalancedStep(open: char, close: char, depth: nat, s: string)
    requires s != ""
    ensures s[0] == open ==>
              BalancedLen(open, close, depth, s) == 1 + BalancedLen(open, close, Deeper(depth), s[1..])
    ensures s[0] != open && s[0] == close ==>
              BalancedLen(open, close, depth, s) ==
              if depth <= 1 then 1 else 1 + BalancedLen(open, close, depth - 1, s[1..])
    ensures s[0] != open && s[0] != close && IsQuote(s[0]) ==>
              var n := 2 + QuotedLen(s[0], s[1..]);
              BalancedLen(open, close, depth, s) ==
              if |s| <= n then |s| else n + BalancedLen(open, close, depth, s[n..])
    ensures s[0] != open && s[0] != close && !IsQuote(s[0]) ==>
              BalancedLen(open, close, depth, s) == 1 + BalancedLen(open, close, depth, s[1..])
  {
    hide QuotedLen;
  }

  /** One byte of a bracketed value, as a step from one position of the text to another. */
  lemma BalancedAt(text: string, i: nat, open: char, close: char, depth: nat)
    requires i < |text| && open != close && !IsQuote(open) && !IsQuote(close)
    ensures var end := i + BalancedLen(open, close, depth, text[i..]);
            (text[i] == open ==> end == i + 1 + BalancedLen(open, close, Deeper(depth), text[i + 1..])) &&
            (text[i] == close && depth <= 1 ==> end == i + 1) &&
            (text[i] == close && depth > 1 ==> end == i + 1 + BalancedLen(open, close, depth - 1, text[i + 1..])) &&
            (text[i] != open && text[i] != close && !IsQuote(text[i]) ==>
               end == i + 1 + BalancedLen(open, close, depth, text[i + 1..]))
    ensures IsQuote(text[i]) ==>
              var end := i + BalancedLen(open, close, depth, text[i..]);
              var next := i + 1 + QuotedLen(text[i], text[i + 1..]) + 1;
              if |text| <= next then end == |text|
              else end == next + BalancedLen(open, close, depth, text[next..])
  {
    hide BalancedLen, QuotedLen, Deeper;
    BalancedStep(open, close, depth, text[i..]);
    DropDrop(text, i, 1);
    if IsQuote(text[i]) {
      var k := 2 + QuotedLen(text[i], text[i + 1..]);
      if i + k < |text| {
        DropDrop(text, i, k);
      }
    }
  }

  lemma BalancedNothing(open: char, close: char, depth: nat)
    ensures BalancedLen(open, close, depth, "") == 0
  {
  }

  method BalancedValueEnd(text: string, startAt: nat, open: char, close: char) returns (end: nat)
    requires startAt <= |text| && open != close && !IsQuote(open) && !IsQuote(close)
    ensures end == startAt + BalancedLen(open, close, 0, text[startAt..])
  {
    hide BalancedLen, QuotedLen, Deeper, IsQuote;
    var index := startAt;
    var depth: nat := 0;
    ghost var target := startAt + BalancedLen(open, close, 0, text[startAt..]);
    while index < |text|
      invariant startAt <= index <= |text| + 1
      invariant index <= |text| ==> index + BalancedLen(open, close, depth, text[index..]) == target
      invariant |text| < index ==> target == |text|
    {
      BalancedAt(text, index, open, close, depth);
      if text[index] == open {
        depth := Deeper(depth);
      } else if text[index] == close {
        depth := if depth == 0 then 0 else depth - 1;
        if depth == 0 {
          return index + 1;
        }
      } else if IsQuote(text[index]) {
        var _, quoteEnd := QuotedValueBounds(text, index);
        BalancedNothing(open, close, depth);
        assert text[|text|..] == "";
        index := quoteEnd;
      }
      index := index + 1;
    }
    BalancedNothing(open, close, depth);
    assert text[|text|..] == "";
    return |text|;
  }

  method UnquotedValueEnd(text: string, startAt: nat) returns (index: nat)
    requires startAt <= |text|
    ensures index == startAt + Lead(IsBare, text[startAt..])
  {
    index := startAt;
    while index < |text| && text[index] !in [',', ';', '\n', '\r']
      invariant startAt <= index <= |text|
      invariant forall i | startAt <= i < index :: IsBare(text[i])
    {
      if IsSpace(text[index]) {
        break;
      }
      index := index + 1;
    }
    LeadUnique(IsBare, text[startAt..], index - startAt);
  }

  method ValueBoundsFrom(text: string, startAt: nat) returns (r: Place)
    requires startAt <= |text|
    ensures r == Shift(ValueBounds(text[startAt..]), startAt)
  {
    hide Lead, QuotedLen, BalancedLen;
    ghost var v := text[startAt..];
    var index := SkipSpaces(text, startAt);
    if |text| <= index {
      return Missing;
    }
    ghost var a := index - startAt;
    assert v[a..] == text[index..] && v[a] == text[index];
    match text[index]
    case '"' =>
      assert v[a + 1..] == text[index + 1..];
      var start, end := QuotedValueBounds(text, index);
      return Span(start, end);
    case '\'' =>
      assert v[a + 1..] == text[index + 1..];
      var start, end := QuotedValueBounds(text, index);
      return Span(start, end);
    case '[' =>
      var end := BalancedValueEnd(text, index, '[', ']');
      return Span(index, end);
    case '{' =>
      var end := BalancedValueEnd(text, index, '{', '}');
      return Span(index, end);
    case _ =>
      var end := UnquotedValueEnd(text, index);
      return Span(index, end);
  }

  // ------------------------------------------------------ where values may be cut

  lemma BoundsAreEdges(v: string)
    requires ValueBounds(v).Span?
    ensures var p := ValueBounds(v);
            (p.start == 0 || IsAscii(v[p.start - 1])) && AsciiEdge(v, p.end)
  {
    hide ValueBounds;
    K.ValueStops(v);
  }

  /** The places a key's delimiter and value are found at are places where a text may be sliced. */
  lemma {:induction false} ValueIsSliceable(text: string, e: nat)
    requires ValidUtf8(text) && e <= |text| && ValueSpan(text[e..]).Span?
    ensures var d, p := Delimiter(text[e..]), ValueSpan(text[e..]);
            d.Span? && d.start < p.start <= p.end &&
            IsBoundary(text, e + d.start) && IsBoundary(text, e + p.start) && IsBoundary(text, e + p.end)
  {
    hide ValidUtf8, Delimiter, ValueBounds;
    var u := text[e..];
    var d, p := Delimiter(u), ValueSpan(u);
    var v := u[d.end..];
    assert v == text[e + d.end..];
    BoundsAreEdges(v);
    assert text[e + d.start] == u[d.start];
    EdgeIsBoundary(text, e + d.start);
    assert IsAscii(text[e + p.start - 1]) by {
      if d.end < p.start {
        assert text[e + p.start - 1] == v[p.start - d.end - 1];
      }
    }
    EdgeIsBoundary(text, e + p.start);
    var n := p.end - d.end;
    assert 0 < n ==> text[e + p.end - 1] == v[n - 1];
    assert n < |v| ==> text[e + p.end] == v[n];
    EdgeIsBoundary(text, e + p.end);
  }
}
