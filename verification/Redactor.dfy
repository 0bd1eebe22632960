/**
 * The audit redactor: three passes that scan a text with an index and build
 * their output only when there is something to replace.
 */
module Redactor {
  import opened Bytes
  import opened Utf8
  import opened RedactionSpec
  import K = RedactionKeys
  import H = RedactionHeaders
  import T = RedactionTokens
  import P = RedactionPasses
  import opened RedactionSpans
  import opened KeyScanner

  /** A text that is borrowed from the caller or built anew. */
  datatype Cow = Borrowed(text: string) | Owned(text: string)

  // ------------------------------------------------------------------ headers

  lemma {:induction false} TrimIsBoundary(s: string)
    requires ValidUtf8(s)
    ensures IsBoundary(s, TrimLen(s))
  {
    var w := WhiteLen(s);
    if w != 0 {
      assert CharLen(s) == w;
      TrimIsBoundary(s[w..]);
      var n := TrimLen(s[w..]);
      assert w + n < |s| ==> s[w..][n] == s[w + n];
      assert n == 0 && w < |s| ==> 0 < CharLen(s[w..]);
    }
  }

  /** A nonempty piece of text with no newline before its last byte. */
  predicate OneLine(line: string) {
    line != "" && forall i | 0 <= i < |line| - 1 :: line[i] != '\n'
  }

  /** The length of a line without its newline. */
  function BodyLen(line: string): (n: nat)
    ensures n <= |line| <= n + 1
  {
    if line != "" && line[|line| - 1] == '\n' then |line| - 1 else |line|
  }

  lemma {:induction false} BoundaryAt(s: string, i: nat)
    requires ValidUtf8(s) && i <= |s|
    requires i == 0 || i == |s| || IsAscii(s[i]) || IsAscii(s[i - 1])
    ensures IsBoundary(s, i)
  {
    hide ValidUtf8;
    EdgeIsBoundary(s, i);
  }

  lemma SplitBody(body: string, n: nat, m: nat)
    requires n + m <= |body|
    ensures body[n..|body|] == body[n..] && body[n..][0..m] == body[n..n + m] &&
            body[0..n] + body[n..n + m] == body[..n + m]
  {
  }

  lemma {:induction false} HeaderDecision(body: string, start: nat, colon: nat)
    requires start == TrimLen(body) && colon == Lead(NotColon, body[start..])
    ensures Header(body).Span? <==>
            start + colon < |body| && IsHeaderName(body[start..start + colon])
    ensures Header(body).Span? ==> RedactLine(body) == body[..start + colon] + ": " + REDACTION
    ensures Header(body).Missing? ==> RedactLine(body) == body
  {
    hide TrimLen, IsHeaderName;
  }

  lemma {:induction false} AsciiIsValid(s: string)
    requires forall i | 0 <= i < |s| :: IsAscii(s[i])
    ensures ValidUtf8(s)
  {
    if s != "" {
      AsciiIsValid(s[1..]);
    }
  }

  lemma MarkIsValid()
    ensures ValidUtf8(REDACTION) && ValidUtf8(": ") && ValidUtf8("\n") && ValidUtf8("")
  {
    hide ValidUtf8;
    AsciiIsValid("");
    AsciiIsValid(REDACTION);
    AsciiIsValid(": ");
    AsciiIsValid("\n");
  }

  lemma {:induction false} AppendAll(output: string, prefix: string, name: string, newline: string)
    requires ValidUtf8(output) && ValidUtf8(prefix) && ValidUtf8(name) && newline in ["\n", ""]
    ensures ValidUtf8(output + prefix + name + ": " + REDACTION + newline)
  {
    hide ValidUtf8;
    MarkIsValid();
    ConcatValid(output, prefix);
    ConcatValid(output + prefix, name);
    ConcatValid(output + prefix + name, ": ");
    ConcatValid(output + prefix + name + ": ", REDACTION);
    ConcatValid(output + prefix + name + ": " + REDACTION, newline);
  }

  lemma Regroup(a: string, b: string, c: string, d: string, e: string, f: string)
    ensures a + b + c + d + e + f == a + (b + c + d + e) + f
  {
  }

  lemma {:induction false} KeepLine(output: string, line: string, n: nat)
    requires n <= |line| && ValidUtf8(output) && ValidUtf8(line)
    ensures output + line == output + line[..n] + line[n..] && ValidUtf8(output + line)
  {
    hide ValidUtf8;
    ConcatValid(output, line);
  }

  method AppendRedactedHeaderLine(output: string, line: string, changed: bool)
    returns (output': string, changed': bool)
    requires ValidUtf8(output) && ValidUtf8(line)
    requires OneLine(line)
    ensures ValidUtf8(output') && (changed ==> changed')
    ensures !changed' ==> output' == output + line
    ensures output' == output + RedactLine(line[..BodyLen(line)]) + line[BodyLen(line)..]
    ensures changed' == (changed || Header(line[..BodyLen(line)]).Span?)
  {
    hide ValidUtf8, TrimLen, IsHeaderName, Header, RedactLine;
    var newline := if line[|line| - 1] == '\n' then "\n" else "";
    var bodyEnd := BodyLen(line);
    BoundaryAt(line, bodyEnd);
    var body := Slice(line, 0, bodyEnd);
    assert body == line[..bodyEnd] && line[bodyEnd..] == newline;
    var prefixLen := TrimLen(body);
    TrimIsBoundary(body);
    var trimmed := Slice(body, prefixLen, |body|);
    var colon := Lead(NotColon, trimmed);
    BoundaryAt(trimmed, colon);
    var name := Slice(trimmed, 0, colon);
    SplitBody(body, prefixLen, colon);
    HeaderDecision(body, prefixLen, colon);
    if colon < |trimmed| && IsHeaderName(name) {
      var prefix := Slice(body, 0, prefixLen);
      AppendAll(output, prefix, name, newline);
      Regroup(output, prefix, name, ": ", REDACTION, newline);
      output', changed' := output + prefix + name + ": " + REDACTION + newline, true;
    } else {
      KeepLine(output, line, bodyEnd);
      output', changed' := output + line, changed;
    }
  }

  lemma Regroup3(a: string, b: string, c: string, d: string)
    ensures a + b + c + d == a + (b + c + d)
    ensures b + "" == b && a + "" == a && a + b + "" + d == a + b + d && b + c + "" == b + c
  {
  }

  lemma {:induction false} HeadersUnfold(s: string, n: nat)
    requires n == Lead(NotNewline, s) < |s|
    ensures RedactHeaders(s) == RedactLine(s[..n]) + "\n" + RedactHeaders(s[n + 1..])
  {
    hide RedactLine;
  }

  lemma HeadersStep(s: string, n: nat)
    requires n == Lead(NotNewline, s) < |s| && ValidUtf8(s)
    ensures IsBoundary(s, n + 1) && IsBoundary(s, 0) && IsBoundary(s, |s|)
    ensures OneLine(s[0..n + 1])
    ensures var line, rest := s[0..n + 1], s[n + 1..|s|];
            s == line + rest &&
            RedactHeaders(s) == RedactLine(line[..BodyLen(line)]) + line[BodyLen(line)..] + RedactHeaders(rest) &&
            (H.HasHeader(s) <==> Header(line[..BodyLen(line)]).Span? || H.HasHeader(rest))
  {
    hide RedactLine, ValidUtf8, H.HasHeader, Header, RedactHeaders;
    H.HasHeaderByLines(s, n);
    HeadersUnfold(s, n);
    BoundaryAt(s, n + 1);
    hide Lead;
    var line := s[0..n + 1];
    assert line[|line| - 1] == '\n';
    assert line[..n] == s[..n] && line[n..] == "\n" && s[n + 1..|s|] == s[n + 1..];
  }

  lemma {:induction false} HeadersLast(s: string)
    requires Lead(NotNewline, s) == |s|
    ensures s != "" ==> OneLine(s)
    ensures RedactHeaders(s) == RedactLine(s[..BodyLen(s)]) + s[BodyLen(s)..]
    ensures s == "" ==> RedactHeaders(s) == ""
    ensures H.HasHeader(s) <==> Header(s[..BodyLen(s)]).Span?
    ensures s == "" ==> !H.HasHeader(s)
  {
    H.HasHeaderByLines(s, |s|);
    H.NoHeaderInNothing();
    hide Header, H.HasHeader;
    assert s != "" ==> s[|s| - 1] != '\n';
    assert s[..|s|] == s && s[|s|..] == "";
  }

  /** The text is rebuilt line by line, and what was built is dropped if no line is a sensitive header. */
  method RedactSensitiveHeaders(text: string) returns (r: Cow, output: string)
    requires ValidUtf8(text)
    ensures r.text == RedactHeaders(text) && ValidUtf8(r.text)
    ensures output == RedactHeaders(text)
    ensures r.Borrowed? <==> !H.HasHeader(text)
  {
    hide *;
    var changed := false;
    output := "";
    var remaining := text;
    MarkIsValid();
    HeadersLast("");

    while remaining != ""
      invariant ValidUtf8(output) && ValidUtf8(remaining)
      invariant output + RedactHeaders(remaining) == RedactHeaders(text)
      invariant !changed ==> output + remaining == text
      invariant H.HasHeader(text) <==> changed || H.HasHeader(remaining)
      decreases |remaining|
    {
      var lineEnd := Lead(NotNewline, remaining);
      if lineEnd == |remaining| {
        HeadersLast(remaining);
        Regroup3(output, RedactLine(remaining[..BodyLen(remaining)]), remaining[BodyLen(remaining)..], "");
        output, changed := AppendRedactedHeaderLine(output, remaining, changed);
        remaining := "";
        break;
      }
      HeadersStep(remaining, lineEnd);
      var line := Slice(remaining, 0, lineEnd + 1);
      var rest := Slice(remaining, lineEnd + 1, |remaining|);
      Regroup3(output, RedactLine(line[..BodyLen(line)]), line[BodyLen(line)..], RedactHeaders(rest));
      Regroup3(output, line, "", rest);
      output, changed := AppendRedactedHeaderLine(output, line, changed);
      remaining := rest;
    }

    r := if changed then Owned(output) else Borrowed(text);
  }

  // ---------------------------------------------------------- keys and values

  /** The first identifier the scan finds is the first one of the rest of the text. */
  lemma {:induction false} NoRunNoIdentifier(text: string, index: nat, n: nat)
    requires index <= n <= |text| && K.Boundary(text, index)
    requires forall i: nat | index <= i < n :: !RunStarts(text, i)
    ensures forall i | index <= i < n :: !IsIdentifier(text[i])
    decreases n
  {
    if index < n {
      NoRunNoIdentifier(text, index, n - 1);
      assert !RunStarts(text, n - 1);
    }
  }

  lemma {:induction false} NothingLeft(text: string, index: nat)
    requires K.Boundary(text, index)
    requires forall i: nat | index <= i :: !RunStarts(text, i)
    ensures RedactKeyValues(text[index..]) == text[index..] && KeySpans(text[index..], index) == []
  {
    hide RedactKeyValues, KeySpans, StepAfter;
    NoRunNoIdentifier(text, index, |text|);
    LeadUnique(NotIdentifier, text[index..], |text| - index);
    K.Unfold(text[index..]);
    UnfoldKeySpans(text[index..], index);
  }

  lemma RunIsLater(text: string, index: nat, start: nat, end: nat)
    requires index <= start && K.IdentifierRun(text, start, end)
    ensures index <= start < end <= |text|
  {
  }

  lemma StepAtIdentifier(text: string, index: nat, start: nat, end: nat)
    requires K.Boundary(text, index) && index <= start && K.IdentifierRun(text, start, end)
    requires forall i: nat | index <= i < start :: !RunStarts(text, i)
    ensures NextStep(text[index..]) == StepAfter(text[start..end], text[end..], end - index)
  {
    hide StepAfter, Lead;
    RunIsLater(text, index, start, end);
    NoRunNoIdentifier(text, index, start);
    K.RunInSuffix(text, index, start, end);
    hide K.IdentifierRun, K.Boundary, RunStarts;
    var s := text[index..];
    forall i | 0 <= i < start - index ensures !IsIdentifier(s[i]) {
      DropAt(text, index, index + i);
    }
    K.FirstKeyAt(s, start - index, end - index);
    DropTake(text, index, start, end);
    DropDrop(text, index, end - index);
  }

  /** The scan copies on after an identifier that has nothing to redact. */
  lemma {:induction false} CopyOn(text: string, index: nat, start: nat, end: nat)
    requires K.Boundary(text, index) && index <= start && K.IdentifierRun(text, start, end)
    requires forall i: nat | index <= i < start :: !RunStarts(text, i)
    requires IsSensitiveKey(NormalizeKey(text[start..end])) ==> ValueSpan(text[end..]).Missing?
    ensures RedactKeyValues(text[index..]) == text[index..end] + RedactKeyValues(text[end..])
    ensures KeySpans(text[index..], index) == KeySpans(text[end..], end)
    ensures K.Boundary(text, end)
  {
    hide RedactKeyValues, KeySpans, NextStep, ValueSpan, IsSensitiveKey, NormalizeKey;
    var s := text[index..];
    StepAtIdentifier(text, index, start, end);
    K.Unfold(s);
    UnfoldKeySpans(s, index);
    assert s[..end - index] == text[index..end] && s[end - index..] == text[end..];
  }

  lemma ValueEndIsBoundary(text: string, e: nat)
    requires e <= |text| && ValueSpan(text[e..]).Span?
    ensures K.Boundary(text, e + ValueSpan(text[e..]).end)
  {
    hide Delimiter, ValueBounds;
    var u := text[e..];
    var d := Delimiter(u);
    var v := u[d.end..];
    var n := ValueBounds(v).end;
    K.ValueStops(v);
    assert n < |v| ==> v[n] == text[e + d.end + n];
    assert 0 < n ==> v[n - 1] == text[e + d.end + n - 1];
  }

  /** The scan replaces the value of a sensitive key and goes on after it. */
  lemma {:induction false} ReplaceAt(text: string, index: nat, start: nat, end: nat)
    requires K.Boundary(text, index) && index <= start && K.IdentifierRun(text, start, end)
    requires forall i: nat | index <= i < start :: !RunStarts(text, i)
    requires IsSensitiveKey(NormalizeKey(text[start..end])) && ValueSpan(text[end..]).Span?
    ensures var v := ValueSpan(text[end..]);
            var a, b := end + v.start, end + v.end;
            RedactKeyValues(text[index..]) == text[index..a] + REDACTION + RedactKeyValues(text[b..]) &&
            KeySpans(text[index..], index) == [Span(a, b)] + KeySpans(text[b..], b) &&
            K.Boundary(text, b)
  {
    hide RedactKeyValues, KeySpans, NextStep, ValueSpan, IsSensitiveKey, NormalizeKey;
    var s := text[index..];
    var v := ValueSpan(text[end..]);
    StepAtIdentifier(text, index, start, end);
    ValueEndIsBoundary(text, end);
    K.Unfold(s);
    UnfoldKeySpans(s, index);
    assert s[..end + v.start - index] == text[index..end + v.start];
    assert s[end + v.end - index..] == text[end + v.end..];
  }

  /** What the two searches after a key found, together. */
  lemma ValueFound(text: string, end: nat, delimiter: Place, value: Place)
    requires end <= |text| && delimiter == Shift(Delimiter(text[end..]), end)
    requires if delimiter.Missing? then value.Missing?
             else delimiter.end <= |text| && value == Shift(ValueBounds(text[delimiter.end..]), delimiter.end)
    ensures value.Missing? <==> ValueSpan(text[end..]).Missing?
    ensures value.Span? ==> var v := ValueSpan(text[end..]);
                            value.start == end + v.start && value.end == end + v.end &&
                            delimiter.Span? && delimiter.start == end + Delimiter(text[end..]).start
  {
    hide Delimiter, ValueBounds;
    var u := text[end..];
    if Delimiter(u).Span? {
      assert u[Delimiter(u).end..] == text[end + Delimiter(u).end..];
    }
  }

  /** What the pass has written, the bytes it has passed over, and what is to come. */
  ghost predicate Progress(text: string, output: string, lastEnd: nat, index: nat, rest: string, whole: string) {
    lastEnd <= index <= |text| && output + text[lastEnd..index] + rest == whole
  }

  lemma ProgressCopies(text: string, output: string, lastEnd: nat, index: nat, rest: string,
                       whole: string, next: nat, rest': string)
    requires Progress(text, output, lastEnd, index, rest, whole)
    requires index <= next <= |text| && rest == text[index..next] + rest'
    ensures Progress(text, output, lastEnd, next, rest', whole)
  {
    assert text[lastEnd..next] == text[lastEnd..index] + text[index..next];
  }

  lemma ProgressReplaces(text: string, output: string, lastEnd: nat, index: nat, rest: string,
                         whole: string, a: nat, b: nat, rest': string)
    requires Progress(text, output, lastEnd, index, rest, whole)
    requires index <= a <= b <= |text| && rest == text[index..a] + REDACTION + rest'
    ensures Progress(text, output + text[lastEnd..a] + REDACTION, b, b, rest', whole)
  {
    assert text[lastEnd..a] == text[lastEnd..index] + text[index..a];
    assert text[b..b] == "";
  }

  /** The spans replaced so far and those to come. */
  ghost predicate Found(text: string, spans: seq<Place>, index: nat) {
    index <= |text| && spans + KeySpans(text[index..], index) == KeySpans(text, 0)
  }

  lemma {:induction false} FoundMore(text: string, spans: seq<Place>, index: nat, value: Place, next: nat)
    requires Found(text, spans, index) && next <= |text|
    requires KeySpans(text[index..], index) == [value] + KeySpans(text[next..], next)
    ensures Found(text, spans + [value], next)
  {
    hide KeySpans;
  }

  /** One turn of the scan that replaces nothing. */
  lemma PassOver(text: string, output: string, lastEnd: nat, index: nat, whole: string,
                 spans: seq<Place>, start: nat, end: nat)
    requires lastEnd <= index <= |text| && K.Boundary(text, index) && index <= start
    requires K.IdentifierRun(text, start, end)
    requires forall i: nat | index <= i < start :: !RunStarts(text, i)
    requires IsSensitiveKey(NormalizeKey(text[start..end])) ==> ValueSpan(text[end..]).Missing?
    requires Progress(text, output, lastEnd, index, RedactKeyValues(text[index..]), whole) && Found(text, spans, index)
    ensures Progress(text, output, lastEnd, end, RedactKeyValues(text[end..]), whole) && Found(text, spans, end)
    ensures K.Boundary(text, end)
  {
    hide Progress, RedactKeyValues, KeySpans, ValueSpan, IsSensitiveKey, NormalizeKey, RunStarts;
    CopyOn(text, index, start, end);
    ProgressCopies(text, output, lastEnd, index, RedactKeyValues(text[index..]), whole, end,
                   RedactKeyValues(text[end..]));
  }

  lemma ProgressEnds(text: string, output: string, lastEnd: nat, index: nat, whole: string)
    requires lastEnd <= index <= |text| && Progress(text, output, lastEnd, index, text[index..], whole)
    ensures output + text[lastEnd..] == whole
  {
    assert text[lastEnd..] == text[lastEnd..index] + text[index..];
  }

  lemma {:induction false} StartScan(text: string)
    ensures text[0..] == text && IsBoundary(text, 0) && IsBoundary(text, |text|) && ValidUtf8("")
    ensures Progress(text, "", 0, 0, RedactKeyValues(text[0..]), RedactKeyValues(text))
    ensures Found(text, [], 0) && K.Boundary(text, 0)
    ensures RedactKeyValues(text[|text|..]) == text[|text|..] && KeySpans(text[|text|..], |text|) == []
  {
    hide RedactKeyValues, KeySpans;
    NothingLeft(text, |text|);
    assert text[0..] == text && text[0..0] == "";
  }

  lemma {:induction false} AppendMark(text: string, output: string, lastEnd: nat, d: nat, a: nat)
    requires ValidUtf8(text) && ValidUtf8(output) && lastEnd <= d <= a <= |text|
    requires IsBoundary(text, lastEnd) && IsBoundary(text, d) && IsBoundary(text, a)
    ensures output + Slice(text, lastEnd, d) + Slice(text, d, a) + REDACTION == output + text[lastEnd..a] + REDACTION
    ensures ValidUtf8(output + text[lastEnd..a] + REDACTION)
  {
    hide ValidUtf8, IsBoundary;
    assert text[lastEnd..a] == text[lastEnd..d] + text[d..a];
    MarkIsValid();
    ConcatValid(output, Slice(text, lastEnd, a));
    ConcatValid(output + Slice(text, lastEnd, a), REDACTION);
  }

  lemma DelimiterInText(text: string, end: nat, delimiter: Place)
    requires end <= |text| && delimiter == Shift(Delimiter(text[end..]), end)
    ensures delimiter.Span? ==> end <= delimiter.start < delimiter.end <= |text|
  {
    hide Delimiter;
  }

  lemma {:induction false} FoundAll(text: string, spans: seq<Place>, index: nat)
    requires Found(text, spans, index) && KeySpans(text[index..], index) == []
    ensures KeySpans(text, 0) == spans
  {
    hide KeySpans;
  }

  method RedactSensitiveKeyValues(text: string) returns (r: Cow)
    requires ValidUtf8(text)
    ensures r.text == RedactKeyValues(text) && ValidUtf8(r.text)
    ensures r.Borrowed? <==> KeySpans(text, 0) == []
  {
    hide ValidUtf8, RedactKeyValues, KeySpans, NextStep, ValueSpan, Delimiter, ValueBounds, IsSensitiveKey,
         NormalizeKey, Progress, Found, Shift, K.IdentifierRun, K.Boundary, RunStarts, IsBoundary;
    var output := "";
    var lastEnd: nat := 0;
    var index: nat := 0;
    ghost var spans := [];
    ghost var whole := RedactKeyValues(text);
    StartScan(text);

    while index < |text|
      invariant lastEnd <= index <= |text| && K.Boundary(text, index)
      invariant Progress(text, output, lastEnd, index, RedactKeyValues(text[index..]), whole)
      invariant Found(text, spans, index)
      invariant lastEnd == 0 <==> spans == []
      invariant lastEnd == 0 ==> output == ""
      invariant ValidUtf8(output) && IsBoundary(text, lastEnd)
      decreases |text| - index
    {
      var found := NextIdentifier(text, index);
      if found.NoIdentifier? {
        NothingLeft(text, index);
        break;
      }
      RunIsLater(text, index, found.start, found.end);
      ghost var from := index;
      index := found.end;
      if !IsSensitiveKey(found.key) {
        PassOver(text, output, lastEnd, from, whole, spans, found.start, index);
        continue;
      }
      var delimiter := NextKeyValueDelimiter(text, index);
      DelimiterInText(text, index, delimiter);
      if delimiter.Missing? {
        ValueFound(text, index, delimiter, Missing);
        PassOver(text, output, lastEnd, from, whole, spans, found.start, index);
        continue;
      }
      var value := ValueBoundsFrom(text, delimiter.end);
      ValueFound(text, index, delimiter, value);
      if value.Missing? {
        PassOver(text, output, lastEnd, from, whole, spans, found.start, index);
        continue;
      }
      ValueIsSliceable(text, index);
      ReplaceAt(text, from, found.start, index);
      ProgressReplaces(text, output, lastEnd, from, RedactKeyValues(text[from..]), whole,
                       value.start, value.end, RedactKeyValues(text[value.end..]));
      FoundMore(text, spans, from, value, value.end);
      AppendMark(text, output, lastEnd, delimiter.start, value.start);
      output := output + Slice(text, lastEnd, delimiter.start);
      output := output + Slice(text, delimiter.start, value.start);
      output := output + REDACTION;
      lastEnd := value.end;
      index := value.end;
      spans := spans + [value];
    }

    FoundAll(text, spans, index);
    ProgressEnds(text, output, lastEnd, index, whole);
    if lastEnd == 0 {
      assert text[0..] == text && "" + text == text;
      return Borrowed(text);
    } else {
      ConcatValid(output, Slice(text, lastEnd, |text|));
      return Owned(output + Slice(text, lastEnd, |text|));
    }
  }

  // ------------------------------------------------------------------- tokens

  lemma {:induction false} TokenStep(text: string, index: nat, end: nat)
    requires index < end <= |text| && T.TokenRun(text[index..], 0, end - index)
    ensures RedactTokens(text[index..]) == T.TokenCopy(text[index..end]) + RedactTokens(text[end..])
    ensures TokenSpans(text[index..], index) ==
            (if IsSensitiveToken(text[index..end]) then [Span(index, end)] else []) + TokenSpans(text[end..], end)
  {
    hide RedactTokens, TokenSpans, IsSensitiveToken;
    var s, e := text[index..], end - index;
    T.TakeToken(s, e);
    TokenSpanTaken(s, e, index);
    assert s[..e] == text[index..end] && s[e..] == text[end..];
  }

  lemma ByteStep(text: string, index: nat)
    requires index < |text| && !IsToken(text[index])
    ensures RedactTokens(text[index..]) == text[index..index + 1] + RedactTokens(text[index + 1..])
    ensures TokenSpans(text[index..], index) == TokenSpans(text[index + 1..], index + 1)
  {
    hide RedactTokens, TokenSpans;
    var s := text[index..];
    T.SkipByte(s);
    UnfoldTokenSpans(s, index);
    assert s[..1] == text[index..index + 1] && s[1..] == text[index + 1..];
  }

  ghost predicate FoundTokens(text: string, spans: seq<Place>, index: nat) {
    index <= |text| && spans + TokenSpans(text[index..], index) == TokenSpans(text, 0)
  }

  lemma {:induction false} FoundMoreTokens(text: string, spans: seq<Place>, index: nat, more: seq<Place>, next: nat)
    requires FoundTokens(text, spans, index) && next <= |text|
    requires TokenSpans(text[index..], index) == more + TokenSpans(text[next..], next)
    ensures FoundTokens(text, spans + more, next)
  {
    hide TokenSpans;
  }

  lemma {:induction false} StartTokens(text: string)
    ensures text[0..] == text && IsBoundary(text, 0) && IsBoundary(text, |text|) && ValidUtf8("")
    ensures Progress(text, "", 0, 0, RedactTokens(text[0..]), RedactTokens(text))
    ensures FoundTokens(text, [], 0)
    ensures RedactTokens(text[|text|..]) == text[|text|..] && TokenSpans(text[|text|..], |text|) == []
  {
    hide RedactTokens, TokenSpans;
    T.FirstTokenByte("");
    UnfoldTokenSpans("", |text|);
    assert text[0..] == text && text[0..0] == "" && text[|text|..] == "";
  }

  lemma {:induction false} FoundAllTokens(text: string, spans: seq<Place>)
    requires FoundTokens(text, spans, |text|) && TokenSpans(text[|text|..], |text|) == []
    ensures TokenSpans(text, 0) == spans
  {
    hide TokenSpans;
  }

  lemma {:induction false} RunFound(text: string, start: nat, end: nat)
    requires start < end <= |text| && forall i | start <= i < end :: IsToken(text[i])
    requires end == |text| || !IsToken(text[end])
    requires ValidUtf8(text)
    ensures T.TokenRun(text[start..], 0, end - start)
    ensures IsBoundary(text, start) && IsBoundary(text, end)
  {
    hide ValidUtf8;
    BoundaryAt(text, start);
    BoundaryAt(text, end);
  }

  method RedactSensitiveTokens(text: string) returns (r: Cow)
    requires ValidUtf8(text)
    ensures r.text == RedactTokens(text) && ValidUtf8(r.text)
    ensures r.Borrowed? <==> TokenSpans(text, 0) == []
  {
    hide ValidUtf8, RedactTokens, TokenSpans, IsSensitiveToken, Progress, FoundTokens, IsBoundary, T.TokenRun;
    var output := "";
    var lastEnd: nat := 0;
    var index: nat := 0;
    ghost var spans := [];
    ghost var whole := RedactTokens(text);
    StartTokens(text);

    while index < |text|
      invariant lastEnd <= index <= |text|
      invariant Progress(text, output, lastEnd, index, RedactTokens(text[index..]), whole)
      invariant FoundTokens(text, spans, index)
      invariant lastEnd == 0 <==> spans == []
      invariant lastEnd == 0 ==> output == ""
      invariant ValidUtf8(output) && IsBoundary(text, lastEnd)
      invariant index == 0 || index == |text| || !IsToken(text[index]) || !IsToken(text[index - 1])
    {
      ghost var from := index;
      if IsToken(text[index]) {
        var start := index;
        while index < |text| && IsToken(text[index])
          invariant start <= index <= |text|
          invariant forall i | start <= i < index :: IsToken(text[i])
        {
          index := index + 1;
        }
        RunFound(text, start, index);
        TokenStep(text, start, index);
        var candidate := Slice(text, start, index);
        if IsSensitiveToken(candidate) {
          assert text[start..start] == "";
          ProgressReplaces(text, output, lastEnd, start, RedactTokens(text[start..]), whole,
                           start, index, RedactTokens(text[index..]));
          FoundMoreTokens(text, spans, start, [Span(start, index)], index);
          AppendMark(text, output, lastEnd, lastEnd, start);
          output := output + Slice(text, lastEnd, start);
          output := output + REDACTION;
          lastEnd := index;
          spans := spans + [Span(start, index)];
        } else {
          ProgressCopies(text, output, lastEnd, start, RedactTokens(text[start..]), whole,
                         index, RedactTokens(text[index..]));
          FoundMoreTokens(text, spans, start, [], index);
          assert spans + [] == spans;
        }
      } else {
        ByteStep(text, index);
        ProgressCopies(text, output, lastEnd, index, RedactTokens(text[index..]), whole,
                       index + 1, RedactTokens(text[index + 1..]));
        FoundMoreTokens(text, spans, index, [], index + 1);
        assert spans + [] == spans;
        index := index + 1;
      }
    }

    FoundAllTokens(text, spans);
    ProgressEnds(text, output, lastEnd, index, whole);
    if lastEnd == 0 {
      assert "" + text == text;
      return Borrowed(text);
    } else {
      ConcatValid(output, Slice(text, lastEnd, |text|));
      return Owned(output + Slice(text, lastEnd, |text|));
    }
  }

  // -------------------------------------------------------------- composition

  lemma NothingInNothing()
    ensures KeySpans("", 0) == [] && TokenSpans("", 0) == [] && RedactHeaders("") == "" && RedactKeyValues("") == ""
  {
    H.RedactedHeadersEmpty("");
  }

  /**
   * The redactor never cuts a character, and borrows the text exactly when it
   * has nothing to redact. `built` says whether some pass filled a buffer on
   * the way: only an empty text is returned without that.
   */
  method RedactSensitive(text: string) returns (r: Cow, built: bool)
    requires ValidUtf8(text)
    ensures r.text == Redact(text) && ValidUtf8(r.text)
    ensures r.Borrowed? <==> P.Clean(text)
    ensures built <==> text != ""
  {
    hide ValidUtf8, RedactHeaders, RedactKeyValues, RedactTokens, KeySpans, TokenSpans, P.Clean, H.HasHeader;
    var withHeaders, lines := RedactSensitiveHeaders(text);
    var withKeys := RedactSensitiveKeyValues(withHeaders.text);
    var withTokens := RedactSensitiveTokens(withKeys.text);
    built := lines != "" || withKeys.Owned? || withTokens.Owned?;
    H.RedactedHeadersEmpty(text);
    NothingInNothing();
    P.RedactUnchangedIffClean(text);
    r := if withTokens.text == text then Borrowed(text) else Owned(withTokens.text);
  }

  lemma NoColonNoHeader(line: string)
    requires forall i | 0 <= i < |line| :: line[i] != ':'
    ensures Header(line).Missing?
  {
    hide TrimLen, IsHeaderName;
    var start := TrimLen(line);
    var end := start + Lead(NotColon, line[start..]);
    assert forall i | 0 <= i < |line| - start :: line[start..][i] == line[start + i];
  }

  lemma NoDelimiterNoValue(u: string)
    requires forall i | 0 <= i < |u| :: !IsDelimiter(u[i])
    ensures ValueSpan(u).Missing?
  {
  }

  /** A short text without a colon or an equals sign has nothing to redact. */
  lemma PlainTextIsClean(text: string)
    requires |text| < 22 && forall i | 0 <= i < |text| :: !IsDelimiter(text[i])
    ensures P.Clean(text)
  {
    hide IsSensitiveKey, NormalizeKey, TrimLen;
    forall i: nat | H.LineStart(text, i, true) ensures H.LineClean(FirstLine(text[i..])) {
      NoColonNoHeader(FirstLine(text[i..]));
    }
    forall start: nat, end: nat | K.IdentifierRun(text, start, end) ensures K.ValueRedacted(text[end..]) {
      NoDelimiterNoValue(text[end..]);
    }
    forall start: nat, end: nat | T.TokenRun(text, start, end) ensures !IsSensitiveToken(text[start..end]) {
    }
  }

  /** So a text without any secret is rebuilt, although the original is returned. */
  lemma NoSecretsHere()
    ensures var text := "no secrets here"; P.Clean(text) && text != "" && RedactHeaders(text) == text
  {
    var text := "no secrets here";
    assert ':' !in text && '=' !in text;
    PlainTextIsClean(text);
    H.CleanHeadersUnchanged(text);
  }
}
