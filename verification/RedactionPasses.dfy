/**
 * How the three passes act on one another: a pass never creates a header line,
 * a sensitive key or a token that an earlier pass would have redacted. So the
 * redactor as a whole is idempotent.
 */
module RedactionPasses {
  import opened Bytes
  import opened RedactionSpec
  import opened RedactionKeys
  import opened RedactionHeaders
  import T = RedactionTokens

  // ------------------------------------------------------- line starts and parts

  predicate StartsLine(s: string, n: nat, first: bool)
    requires n <= |s|
  {
    if n == 0 then first else s[n - 1] == '\n'
  }

  lemma HeadersFromParts(o: string, n: nat, first: bool)
    requires n <= |o| && HeadersClean(o[n..], StartsLine(o, n, first))
    requires forall i: nat | i < n && LineStart(o, i, first) :: LineClean(FirstLine(o[i..]))
    ensures HeadersClean(o, first)
  {
    hide LineClean, FirstLine;
    forall i: nat | LineStart(o, i, first) ensures LineClean(FirstLine(o[i..])) {
      if n <= i {
        assert LineStart(o[n..], i - n, StartsLine(o, n, first));
        assert o[n..][i - n..] == o[i..];
      }
    }
  }

  lemma HeadersOfSuffix(s: string, n: nat, first: bool, atLine: bool)
    requires n <= |s| && HeadersClean(s, first) && (atLine ==> StartsLine(s, n, first))
    ensures HeadersClean(s[n..], atLine)
  {
    hide LineClean, FirstLine;
    forall i: nat | LineStart(s[n..], i, atLine) ensures LineClean(FirstLine(s[n..][i..])) {
      assert LineStart(s, n + i, first);
      assert s[n..][i..] == s[n + i..];
    }
  }

  /** The rest of a text whose first line is a redacted header. */
  lemma AfterRedactedHeader(s: string, e: nat) returns (rest: string)
    requires e <= |FirstLine(s)| && FirstLine(s)[e..] == ": " + REDACTION
    ensures s == s[..e] + ": " + REDACTION + rest && FirstLine(s) == s[..e] + ": " + REDACTION
    ensures rest == "" || rest[0] == '\n'
  {
    var n := Lead(NotNewline, s);
    rest := s[n..];
    var line := FirstLine(s);
    assert s == line + rest;
    assert line == line[..e] + line[e..];
    assert line[..e] == s[..e];
  }

  lemma FirstLineNoNewline(s: string)
    ensures '\n' !in FirstLine(s)
  {
  }

  // ----------------------------------------------------- the key pass and headers

  /** The value of a redacted header is, for the key pass, the mark. */
  lemma MarkAfterColon(t: string)
    ensures ValueSpan(": " + REDACTION + t) == Span(2, 2 + |REDACTION|)
  {
    var u := ": " + REDACTION + t;
    LeadUnique(IsSpace, u, 0);
    assert Delimiter(u) == Span(0, 1);
    assert u[1..][1..] == REDACTION + t;
    BracketBounds(u[1..], 1, t);
  }

  lemma StepOfKey(s: string)
    requires Lead(NotIdentifier, s) < |s|
    ensures KeyEnd(s) <= |s|
    ensures NextStep(s) == StepAfter(s[Lead(NotIdentifier, s)..KeyEnd(s)], s[KeyEnd(s)..], KeyEnd(s))
  {
    hide StepAfter, Lead, KeyEnd;
  }

  lemma {:induction false} StepForKey(s: string)
    requires Lead(NotIdentifier, s) < |s|
    requires IsSensitiveKey(NormalizeKey(s[Lead(NotIdentifier, s)..KeyEnd(s)]))
    requires ValueSpan(s[KeyEnd(s)..]).Span?
    ensures var v := ValueSpan(s[KeyEnd(s)..]);
            NextStep(s) == Replace(KeyEnd(s) + v.start, KeyEnd(s) + v.end)
  {
    hide IsSensitiveKey, ValueSpan;
  }

  /** The first identifier and the byte after it survive the key pass. */
  lemma {:induction false} FirstKeySurvives(s: string)
    requires Lead(NotIdentifier, s) < |s|
    ensures KeyEnd(s) <= |s|
    ensures KeyEnd(s) == |s| ==> RedactKeyValues(s) == s
    ensures KeyEnd(s) < |s| ==> KeepsUpTo(s, RedactKeyValues(s), KeyEnd(s) + 1)
  {
    hide RedactKeyValues, NextStep, IsSensitiveKey, ValueSpan, NormalizeKey, KeyEnd, Lead;
    FirstRun(s);
    Unfold(s);
    match NextStep(s)
    case Copy(e) =>
      StepCopies(s, e);
      KeepsFirstByte(s[e..]);
      assert e < |s| ==> (s[..e] + RedactKeyValues(s[e..]))[..e + 1] == s[..e + 1];
    case Replace(a, b) =>
      StepReplaces(s, a, b);
      SpliceKeeps(s, a, REDACTION, KeyEnd(s) + 1);
      SpliceKeeps(s[..a] + REDACTION, a + |REDACTION|, RedactKeyValues(s[b..]), KeyEnd(s) + 1);
  }

  lemma {:induction false} SameFirstKey(s: string, o: string)
    requires Lead(NotIdentifier, s) < |s| && KeyEnd(s) <= |s|
    requires KeepsUpTo(s, o, KeyEnd(s)) && (KeyEnd(s) < |o| ==> !IsIdentifier(o[KeyEnd(s)]))
    ensures Lead(NotIdentifier, o) == Lead(NotIdentifier, s) && KeyEnd(o) == KeyEnd(s)
  {
    var k, e := Lead(NotIdentifier, s), KeyEnd(s);
    FirstRun(s);
    SameRun(s, o, k, e);
    assert o[..k] == o[..e][..k] == s[..e][..k] == s[..k];
    LeadSame(NotIdentifier, s, o);
    FirstRun(o);
    RunsMeet(o, k, e, k, KeyEnd(o));
  }

  /** A header line of the output was a header line of the text, with the same name. */
  lemma {:induction false} HeaderWasThere(s: string)
    requires Header(FirstLine(RedactKeyValues(s))).Span?
    ensures Header(FirstLine(s)) == Header(FirstLine(RedactKeyValues(s)))
  {
    hide RedactKeyValues, Header, FirstLine, IsSensitiveKey, NormalizeKey, KeyEnd, Lead;
    var o := RedactKeyValues(s);
    HeaderShape(o);
    HeaderIsFirstKey(o);
    CopiesPlainPrefix(s);
    if Lead(NotIdentifier, s) < |s| {
      FirstKeySurvives(s);
      FirstRun(s);
      var e := KeyEnd(s);
      if e < |s| {
        assert o[..e] == o[..e + 1][..e] == s[..e + 1][..e] == s[..e];
        assert o[e] == o[..e + 1][e] == s[..e + 1][e] == s[e];
        SameFirstKey(s, o);
        HeaderShared(o, s);
      }
    }
  }

  /** The first line of a text whose first line is a redacted header, after the key pass. */
  lemma RedactedHeaderAfterKeys(s: string, e: nat, rest: string)
    requires e <= |s| && s[e..] == ": " + REDACTION + rest && FirstLine(s) == s[..e] + ": " + REDACTION
    requires rest == "" || rest[0] == '\n'
    requires RedactKeyValues(s) == s[..e + 2] + REDACTION + RedactKeyValues(rest)
    ensures FirstLine(RedactKeyValues(s)) == FirstLine(s)
  {
    hide RedactKeyValues, FirstLine;
    var t := RedactKeyValues(rest);
    KeepsFirstByte(rest);
    assert s[..e + 2] == s[..e] + ": " by {
      assert s[..e + 2] == s[..e] + s[e..][..2];
    }
    assert RedactKeyValues(s) == FirstLine(s) + t;
    FirstLineNoNewline(s);
    FirstLineOf(FirstLine(s), t);
  }

  lemma CleanLineSurvivesKeys(s: string)
    requires LineClean(FirstLine(s))
    ensures LineClean(FirstLine(RedactKeyValues(s)))
  {
    hide RedactKeyValues, Header, FirstLine, IsSensitiveKey, NormalizeKey, ValueSpan, NextStep;
    if Header(FirstLine(RedactKeyValues(s))).Span? {
      HeaderWasThere(s);
      HeaderIsFirstKey(s);
      var e := KeyEnd(s);
      var rest := AfterRedactedHeader(s, e);
      assert s[e..] == ": " + REDACTION + rest;
      MarkAfterColon(rest);
      StepForKey(s);
      Unfold(s);
      assert s[e + 12..] == rest;
      RedactedHeaderAfterKeys(s, e, rest);
    }
  }

  lemma DropTwice(s: string, i: nat, k: nat, e: nat)
    requires i <= k <= e <= |s|
    ensures s[i..][k - i..e - i] == s[k..e] && s[i..][e - i..] == s[e..]
  {
  }

  lemma {:induction false} KeyShift(s: string, i: nat)
    requires i <= Lead(NotIdentifier, s)
    ensures Lead(NotIdentifier, s[i..]) == Lead(NotIdentifier, s) - i
    ensures Lead(NotIdentifier, s) < |s| ==>
              var k, e := Lead(NotIdentifier, s), KeyEnd(s);
              k <= e <= |s| && KeyEnd(s[i..]) == e - i &&
              s[i..][k - i..e - i] == s[k..e] && s[i..][e - i..] == s[e..]
  {
    hide NotIdentifier, IsIdentifier, Lead;
    var k := Lead(NotIdentifier, s);
    LeadDrop(NotIdentifier, s, i);
    assert s[i..][k - i..] == s[k..];
    if k < |s| {
      DropTwice(s, i, k, KeyEnd(s));
    }
  }

  lemma {:induction false} FirstStep(s: string, k: nat, e: nat)
    requires k == Lead(NotIdentifier, s) < |s| && e == KeyEnd(s) && k <= e <= |s|
    ensures NextStep(s) == StepAfter(s[k..e], s[e..], e)
  {
    hide StepAfter, IsIdentifier, NotIdentifier;
  }

  lemma StepAfterShift(key: string, u: string, e: nat, i: nat)
    requires i <= e
    ensures match StepAfter(key, u, e)
            case Finish => false
            case Copy(_) => StepAfter(key, u, e - i) == Copy(e - i)
            case Replace(a, b) => StepAfter(key, u, e - i) == Replace(a - i, b - i)
  {
    hide ValueSpan, IsSensitiveKey, NormalizeKey;
  }

  lemma {:induction false} StepShift(s: string, i: nat)
    requires i <= Lead(NotIdentifier, s)
    ensures match NextStep(s)
            case Finish => NextStep(s[i..]).Finish?
            case Copy(e) => i <= e && NextStep(s[i..]) == Copy(e - i)
            case Replace(a, b) => i <= a && NextStep(s[i..]) == Replace(a - i, b - i)
  {
    hide *;
    KeyShift(s, i);
    var k := Lead(NotIdentifier, s);
    if k < |s| {
      var e := KeyEnd(s);
      FirstStep(s, k, e);
      FirstStep(s[i..], k - i, e - i);
      StepAfterShift(s[k..e], s[e..], e, i);
    }
  }

  /** Bytes before the first identifier can be set aside. */
  lemma {:induction false} DropPlain(s: string, i: nat)
    requires i <= Lead(NotIdentifier, s)
    ensures RedactKeyValues(s) == s[..i] + RedactKeyValues(s[i..])
  {
    hide *;
    StepShift(s, i);
    Unfold(s);
    Unfold(s[i..]);
    match NextStep(s)
    case Finish =>
      assert s == s[..i] + s[i..];
    case Copy(e) =>
      assert s[..e] == s[..i] + s[i..][..e - i];
      assert s[i..][e - i..] == s[e..];
    case Replace(a, b) =>
      assert s[..a] == s[..i] + s[i..][..a - i];
      assert s[i..][b - i..] == s[b..];
  }

  /** What stands between a key and its mark is not a header. */
  lemma NoHeaderBeforeMark(gap: string, t: string)
    requires forall i | 0 <= i < |gap| :: !IsIdentifier(gap[i])
    ensures Header(FirstLine(gap + REDACTION + t)).Missing?
  {
    hide Header, FirstLine;
    var o := gap + REDACTION + t;
    assert forall j | 0 <= j < |gap| :: o[j] == gap[j] && !IsIdentifier(o[j]);
    assert o[|gap|] == '[' && !IsIdentifier(o[|gap|]) && !IsTrimByte(o[|gap|]);
    if Header(FirstLine(o)).Span? {
      HeaderShape(o);
      assert false;
    }
  }

  lemma {:induction false} HeadersBeforeKey(s: string, i: nat, first: bool)
    requires HeadersClean(s, first) && i <= Lead(NotIdentifier, s) && LineStart(s, i, first)
    ensures i <= |RedactKeyValues(s)| && LineClean(FirstLine(RedactKeyValues(s)[i..]))
  {
    hide RedactKeyValues, LineClean, FirstLine;
    DropPlain(s, i);
    CleanLineSurvivesKeys(s[i..]);
    assert RedactKeyValues(s)[i..] == RedactKeyValues(s[i..]);
  }

  /** Of the bytes up to the value only those of the key are identifier bytes. */
  lemma {:induction false} GapBeforeValue(s: string, a: nat, b: nat)
    requires NextStep(s) == Replace(a, b)
    ensures Lead(NotIdentifier, s) < KeyEnd(s) < a <= |s|
    ensures forall j | Lead(NotIdentifier, s) <= j < KeyEnd(s) :: IsIdentifier(s[j])
    ensures forall j | KeyEnd(s) <= j < a :: !IsIdentifier(s[j])
  {
    hide NextStep, ValueSpan, IsSensitiveKey, NormalizeKey, KeyEnd, Lead;
    var e := KeyEnd(s);
    StepReplaces(s, a, b);
    FirstRun(s);
    ValueSpanPlain(s[e..]);
    forall j | e <= j < a ensures !IsIdentifier(s[j]) {
      assert s[j] == s[e..][j - e];
    }
  }

  lemma MarkHasNoNewline(x: string, t: string, j: nat)
    requires |x| <= j < |x| + |REDACTION|
    ensures (x + REDACTION + t)[j] != '\n'
  {
    assert (x + REDACTION + t)[j] == REDACTION[j - |x|];
  }

  lemma {:induction false} HeadersInReplaced(s: string, a: nat, b: nat, t: string, i: nat)
    requires NextStep(s) == Replace(a, b)
    requires Lead(NotIdentifier, s) < i < a + |REDACTION|
    requires (s[..a] + REDACTION + t)[i - 1] == '\n'
    ensures LineClean(FirstLine((s[..a] + REDACTION + t)[i..]))
  {
    hide NextStep, ValueSpan, Header, FirstLine, IsSensitiveKey, NormalizeKey, KeyEnd, Lead;
    GapBeforeValue(s, a, b);
    var o := s[..a] + REDACTION + t;
    if a < i {
      MarkHasNoNewline(s[..a], t, i - 1);
    }
    assert i <= a;
    assert o[i - 1] == s[i - 1];
    assert KeyEnd(s) < i;
    var gap := s[i..a];
    DropFromSplice(s, i, a, REDACTION, t);
    assert s[i..][..a - i] == gap;
    NoHeaderBeforeMark(gap, t);
  }

  /** The key pass creates no header line that the header pass would redact. */
  lemma {:induction false} KeysKeepHeaders(s: string, first: bool)
    requires HeadersClean(s, first)
    ensures HeadersClean(RedactKeyValues(s), first)
    decreases |s|
  {
    hide RedactKeyValues, NextStep, LineClean, FirstLine, HeadersClean, ValueSpan, IsSensitiveKey, NormalizeKey,
         KeyEnd, Lead;
    var o := RedactKeyValues(s);
    Unfold(s);
    match NextStep(s)
    case Finish =>
    case Copy(e) =>
      StepCopies(s, e);
      FirstRun(s);
      assert forall j | 0 <= j < e :: o[j] == s[j];
      HeadersOfSuffix(s, e, first, false);
      KeysKeepHeaders(s[e..], false);
      assert o[e..] == RedactKeyValues(s[e..]);
      forall i: nat | i < e && LineStart(o, i, first) ensures LineClean(FirstLine(o[i..])) {
        assert 0 < i ==> !IsIdentifier(o[i - 1]);
        HeadersBeforeKey(s, i, first);
      }
      HeadersFromParts(o, e, first);
    case Replace(a, b) =>
      StepReplaces(s, a, b);
      var n := a + |REDACTION|;
      assert forall j | 0 <= j < a :: o[j] == s[j];
      HeadersOfSuffix(s, b, first, false);
      KeysKeepHeaders(s[b..], false);
      assert o[n..] == RedactKeyValues(s[b..]);
      forall i: nat | i < n && LineStart(o, i, first) ensures LineClean(FirstLine(o[i..])) {
        if i <= Lead(NotIdentifier, s) {
          HeadersBeforeKey(s, i, first);
        } else {
          HeadersInReplaced(s, a, b, RedactKeyValues(s[b..]), i);
        }
      }
      assert o[n - 1] == REDACTION[9] == ']';
      HeadersFromParts(o, n, first);
  }

  // --------------------------------------------------- the token pass and headers

  lemma ColonTokenKept(token: string)
    requires ':' in token
    ensures !IsSensitiveToken(token)
  {
    var i :| 0 <= i < |token| && token[i] == ':';
    assert !IsHexDigit(token[i]);
  }

  /** The first token of the text, if the output starts with a header. */
  lemma {:induction false} HeaderTokenKept(white: string, run: string, n: nat)
    requires forall i | 0 <= i < |white| :: !IsToken(white[i])
    requires T.TokenRun(run, 0, n)
    requires Header(FirstLine(white + RedactTokens(run))).Span?
    ensures Header(FirstLine(white + run)) == Header(FirstLine(white + RedactTokens(run)))
  {
    hide RedactTokens, Header, FirstLine, IsSensitiveToken;
    var o, s := white + RedactTokens(run), white + run;
    var h := Header(FirstLine(o));
    HeaderShape(o);
    T.TakeToken(run, n);
    T.FirstTokenByte(run[n..]);
    T.FirstTokenByte(run);
    var p := |white|;
    assert o[p] == RedactTokens(run)[0];
    assert forall i | 0 <= i < p :: o[i] == white[i] && !IsToken(o[i]);
    assert h.start == p;
    assert RedactTokens(run) == run[..n] + RedactTokens(run[n..]);
    assert o[..p + n] == s[..p + n];
    assert p + n < |o| ==> o[p + n] == RedactTokens(run[n..])[0];
    assert h.end < p + n;
    assert o[..h.end + 1] == o[..p + n][..h.end + 1] == s[..p + n][..h.end + 1] == s[..h.end + 1];
    HeaderShared(o, s);
  }

  /** A header line of the output was a header line of the text, with the same name. */
  lemma {:induction false} HeaderWasThereBeforeTokens(s: string)
    requires Header(FirstLine(RedactTokens(s))).Span?
    ensures Header(FirstLine(s)) == Header(FirstLine(RedactTokens(s)))
  {
    hide RedactTokens, Header, FirstLine, IsSensitiveToken;
    var p := Lead(NotToken, s);
    var white, run := s[..p], s[p..];
    T.SkipBytes(white, run);
    assert s == white + run;
    if p < |s| {
      var n := T.FirstRun(run);
      HeaderTokenKept(white, run, n);
    } else {
      T.FirstTokenByte("");
    }
  }

  /** The token pass copies white space, a header name, its colon and the mark. */
  lemma {:induction false} RedactedHeaderKept(white: string, name: string, rest: string)
    requires forall i | 0 <= i < |white| :: !IsToken(white[i])
    requires forall i | 0 <= i < |name| :: IsToken(name[i])
    ensures RedactTokens(white + name + ": " + REDACTION + rest) == white + name + ": " + REDACTION + RedactTokens(rest)
  {
    hide RedactTokens, IsSensitiveToken;
    var token := name + ":";
    assert token[|name|] == ':';
    ColonTokenKept(token);
    T.KeepMark(rest);
    T.SkipBytes(" ", REDACTION + rest);
    T.KeepToken(token, " " + (REDACTION + rest));
    T.SkipBytes(white, token + (" " + (REDACTION + rest)));
    assert white + name + ": " + REDACTION + rest == white + (token + (" " + (REDACTION + rest)));
    assert white + name + ": " + REDACTION + RedactTokens(rest)
        == white + (token + (" " + (REDACTION + RedactTokens(rest))));
  }

  lemma HeaderBytes(c: char)
    ensures IsTrimByte(c) ==> !IsToken(c)
    ensures IsIdentifier(c) ==> IsToken(c)
    ensures !IsToken('\n')
  {
  }

  lemma {:induction false} CleanLineSurvivesTokens(s: string)
    requires LineClean(FirstLine(s))
    ensures LineClean(FirstLine(RedactTokens(s)))
  {
    hide RedactTokens, Header, FirstLine, IsSensitiveToken, IsTrimByte, IsIdentifier, IsToken;
    if Header(FirstLine(RedactTokens(s))).Span? {
      HeaderWasThereBeforeTokens(s);
      HeaderShape(s);
      HeaderBytes('\n');
      forall c: char {
        HeaderBytes(c);
      }
      var h := Header(FirstLine(s));
      var rest := AfterRedactedHeader(s, h.end);
      var white, name := s[..h.start], s[h.start..h.end];
      assert s[..h.end] == white + name;
      RedactedHeaderKept(white, name, rest);
      T.FirstTokenByte(rest);
      FirstLineNoNewline(s);
      FirstLineOf(FirstLine(s), RedactTokens(rest));
    }
  }

  /** The token pass creates no header line that the header pass would redact. */
  lemma {:induction false} TokensKeepHeaders(s: string, first: bool)
    requires HeadersClean(s, first)
    ensures HeadersClean(RedactTokens(s), first)
    decreases |s|
  {
    hide RedactTokens, LineClean, FirstLine, IsSensitiveToken;
    var o := RedactTokens(s);
    assert s[0..] == s && o[0..] == o;
    if first {
      assert LineStart(s, 0, first);
      CleanLineSurvivesTokens(s);
    }
    if s == "" {
      T.FirstTokenByte(s);
    } else {
      var n, copy;
      if !IsToken(s[0]) {
        T.SkipByte(s);
        n, copy := 1, s[..1];
      } else {
        n := T.FirstRun(s);
        T.TakeToken(s, n);
        copy := T.TokenCopy(s[..n]);
        assert forall i | 0 <= i < |copy| :: copy[i] != '\n';
      }
      var atLine := s[n - 1] == '\n';
      HeadersOfSuffix(s, n, first, atLine);
      TokensKeepHeaders(s[n..], atLine);
      assert o[|copy|..] == RedactTokens(s[n..]);
      assert forall i | 0 <= i < |copy| :: o[i] == copy[i];
      assert StartsLine(o, |copy|, first) == atLine;
      assert forall i: nat | i < |copy| && LineStart(o, i, first) :: i == 0;
      HeadersFromParts(o, |copy|, first);
    }
  }

  // ------------------------------------------------------ the token pass and keys

  /** The text between a key and its mark contains no token but the delimiter. */
  lemma {:induction false} TokensAroundMark(gap: string, delimiter: char, space: string, t: string)
    requires IsDelimiter(delimiter)
    requires forall i | 0 <= i < |gap| :: !IsToken(gap[i])
    requires forall i | 0 <= i < |space| :: !IsToken(space[i])
    requires t == "" || !IsToken(t[0])
    ensures RedactTokens(gap + [delimiter] + space + t) == gap + [delimiter] + space + RedactTokens(t)
  {
    hide RedactTokens;
    T.SkipBytes(space, t);
    if delimiter == ':' {
      ColonTokenKept(":");
      T.KeepToken(":", space + t);
    } else {
      T.SkipBytes([delimiter], space + t);
    }
    T.SkipBytes(gap, [delimiter] + (space + t));
    assert gap + [delimiter] + space + t == gap + ([delimiter] + (space + t));
    assert gap + [delimiter] + space + RedactTokens(t) == gap + ([delimiter] + (space + RedactTokens(t)));
  }

  lemma {:induction false} MissingDelimiterKept(u: string)
    requires Delimiter(u).Missing?
    ensures Delimiter(RedactTokens(u)).Missing?
  {
    hide RedactTokens, DelimiterProbe;
    var o := RedactTokens(u);
    var b := DelimiterProbe(u);
    DelimiterProbePlain(u);
    T.SkipBytes(u[..b], u[b..]);
    assert u == u[..b] + u[b..];
    T.FirstTokenByte(u[b..]);
    if b < |u| {
      assert o[b] == RedactTokens(u[b..])[0];
      assert o[..b] == u[..b];
      DelimiterProbeLocal(u, o);
    } else {
      assert o == u;
    }
  }

  /** A text with a delimiter and no value: plain bytes, the delimiter, plain bytes. */
  lemma BlankParts(u: string) returns (gap: string, delimiter: char, space: string)
    requires Delimiter(u).Span? && ValueSpan(u).Missing?
    ensures IsDelimiter(delimiter) && u == gap + [delimiter] + space
    ensures forall i | 0 <= i < |gap| :: !IsToken(gap[i])
    ensures forall i | 0 <= i < |space| :: !IsToken(space[i])
  {
    hide DelimiterProbe, Lead;
    DelimiterProbePlain(u);
    var d := Delimiter(u).start;
    gap, delimiter, space := u[..d], u[d], u[d + 1..];
    assert Lead(IsSpace, space) == |space|;
    assert forall i | 0 <= i < |space| :: IsSpace(space[i]);
  }

  lemma {:induction false} BlankKept(u: string)
    requires Delimiter(u).Span? && ValueSpan(u).Missing?
    ensures RedactTokens(u) == u
  {
    hide *;
    var gap, delimiter, space := BlankParts(u);
    TokensAroundMark(gap, delimiter, space, "");
    T.FirstTokenByte("");
    assert gap + [delimiter] + space + "" == u;
  }

  /** The text from a key to its value: plain bytes, the delimiter, plain bytes. */
  lemma BeforeValue(u: string) returns (gap: string, delimiter: char, space: string)
    requires ValueSpan(u).Span?
    ensures IsDelimiter(delimiter) && u[..ValueSpan(u).start] == gap + [delimiter] + space
    ensures forall i | 0 <= i < |gap| :: !IsToken(gap[i])
    ensures forall i | 0 <= i < |space| :: !IsToken(space[i])
  {
    hide ValueBounds, DelimiterProbe;
    DelimiterProbePlain(u);
    var d := Delimiter(u).start;
    var a := ValueSpan(u).start;
    ValueBoundsPlain(u[d + 1..]);
    gap, delimiter, space := u[..d], u[d], u[d + 1..a];
    forall i | 0 <= i < |space| ensures !IsToken(space[i]) {
      assert space[i] == u[d + 1..][i];
    }
  }

  lemma {:induction false} MarkedValueKept(u: string, a: nat, b: nat)
    requires ValueSpan(u) == Span(a, b) && u[a..b] == REDACTION
    ensures ValueSpan(RedactTokens(u)) == Span(a, b)
    ensures b <= |RedactTokens(u)| && RedactTokens(u)[a..b] == REDACTION
  {
    hide RedactTokens, ValueSpan;
    var rest := u[b..];
    var gap, delimiter, space := BeforeValue(u);
    assert u == gap + [delimiter] + space + (REDACTION + rest);
    TokensAroundMark(gap, delimiter, space, REDACTION + rest);
    T.KeepMark(rest);
    T.FirstTokenByte(rest);
    ValueReadback(u, a, b, RedactTokens(rest));
    assert RedactTokens(u) == u[..a] + REDACTION + RedactTokens(rest);
  }

  lemma {:induction false} ValueSurvivesTokens(u: string)
    requires ValueRedacted(u)
    ensures ValueRedacted(RedactTokens(u))
  {
    hide RedactTokens, Delimiter, ValueBounds;
    if Delimiter(u).Missing? {
      MissingDelimiterKept(u);
    } else if ValueSpan(u).Missing? {
      BlankKept(u);
    } else {
      MarkedValueKept(u, ValueSpan(u).start, ValueSpan(u).end);
    }
  }

  /** If the rest of a token follows a key directly, it is not redacted with the rest. */
  lemma ColonEndsToken(u: string)
    requires 2 <= |u| && u[0] == ':' && IsToken(u[1])
    ensures !ValueRedacted(u)
  {
    LeadUnique(IsSpace, u, 0);
    assert Delimiter(u) == Span(0, 1);
    LeadUnique(IsSpace, u[1..], 0);
    var n := Lead(IsBare, u[1..]);
    assert ValueSpan(u) == Span(1, 1 + n);
    assert 0 < n ==> u[1..1 + n][0] == u[1];
  }

  lemma DotHasNoValue(o: string)
    requires o != "" && o[0] == '.'
    ensures ValueRedacted(o)
  {
    hide ValueBounds;
    LeadUnique(IsSpace, o, 0);
  }

  lemma ValueSurvivesInToken(u: string, m: nat)
    requires ValueRedacted(u) && m <= |u| && (u == "" || !IsIdentifier(u[0]))
    requires forall i | 0 <= i < m :: IsToken(u[i])
    requires m == |u| || !IsToken(u[m])
    ensures ValueRedacted(u[..m] + RedactTokens(u[m..]))
  {
    hide RedactTokens, ValueRedacted;
    var o := u[..m] + RedactTokens(u[m..]);
    if m == 0 {
      assert u[0..] == u && o == RedactTokens(u);
      ValueSurvivesTokens(u);
    } else if u[0] == ':' {
      if 2 <= m {
        ColonEndsToken(u);
      }
      ColonTokenKept(u[..1]);
      T.KeepToken(u[..1], u[1..]);
      assert u == u[..1] + u[1..];
      ValueSurvivesTokens(u);
    } else {
      DotHasNoValue(o);
    }
  }

  lemma KeysInKeptToken(s: string, e: nat, t: string, start: nat, end: nat)
    requires KeysClean(s) && T.TokenRun(s, 0, e) && t == RedactTokens(s[e..])
    requires IdentifierRun(s[..e] + t, start, end) && start < e
    requires IsSensitiveKey(NormalizeKey((s[..e] + t)[start..end]))
    ensures ValueRedacted((s[..e] + t)[end..])
  {
    hide RedactTokens, ValueRedacted, IsSensitiveKey, NormalizeKey;
    var o := s[..e] + t;
    T.FirstTokenByte(s[e..]);
    assert forall i | 0 <= i < e :: o[i] == s[i];
    assert e < |o| ==> o[e] == t[0] && !IsToken(o[e]) && !IsIdentifier(o[e]);
    assert end <= e;
    assert IdentifierRun(s, start, end);
    assert o[start..end] == s[start..end];
    var u, m := s[end..], e - end;
    ValueSurvivesInToken(u, m);
    assert u[m..] == s[e..];
    assert o[end..] == u[..m] + RedactTokens(u[m..]);
  }

  /** The token pass leaves every sensitive key without a value or with the mark. */
  lemma {:induction false} TokensKeepKeys(s: string)
    requires KeysClean(s)
    ensures KeysClean(RedactTokens(s))
    decreases |s|
  {
    hide RedactTokens, KeysClean, ValueRedacted, IsSensitiveKey, NormalizeKey, IsSensitiveToken;
    if s == "" {
      T.FirstTokenByte(s);
    } else {
      var n;
      if !IsToken(s[0]) {
        n := 1;
        T.SkipByte(s);
      } else {
        n := T.FirstRun(s);
        T.TakeToken(s, n);
      }
      var t := RedactTokens(s[n..]);
      CleanSuffix(s, n);
      TokensKeepKeys(s[n..]);
      if !IsToken(s[0]) {
        assert (s[..1] + t)[1..] == t && (s[..1] + t)[0] == s[0];
        CleanFromParts(s[..1] + t, 1);
      } else if IsSensitiveToken(s[..n]) {
        var o := REDACTION + t;
        assert o == "" + REDACTION + t && o[|REDACTION|..] == t;
        forall start: nat, end: nat | IdentifierRun(o, start, end) && start < |REDACTION|
          ensures !IsSensitiveKey(NormalizeKey(o[start..end]))
        {
          RunInMark("", t, start, end);
        }
        CleanFromParts(o, |REDACTION|);
      } else {
        var o := s[..n] + t;
        assert o[n..] == t;
        forall start: nat, end: nat |
          IdentifierRun(o, start, end) && start < n && IsSensitiveKey(NormalizeKey(o[start..end]))
          ensures ValueRedacted(o[end..])
        {
          KeysInKeptToken(s, n, t, start, end);
        }
        CleanFromParts(o, n);
      }
    }
  }

  // ------------------------------------------------------------- the whole redactor

  /** Nothing in the text is left for any pass to redact. */
  ghost predicate Clean(text: string) {
    HeadersClean(text, true) && KeysClean(text) && T.TokensClean(text)
  }

  /** The final output has only redacted headers, redacted values and no sensitive token. */
  lemma RedactedIsClean(text: string)
    ensures Clean(Redact(text))
  {
    hide RedactHeaders, RedactKeyValues, RedactTokens, HeadersClean, KeysClean, T.TokensClean;
    var headers := RedactHeaders(text);
    var keys := RedactKeyValues(headers);
    OutputHeadersClean(text);
    KeysKeepHeaders(headers, true);
    TokensKeepHeaders(keys, true);
    OutputKeysClean(headers);
    TokensKeepKeys(keys);
    T.OutputTokensClean(keys);
  }

  lemma CleanIsUnchanged(text: string)
    requires Clean(text)
    ensures Redact(text) == text
  {
    hide RedactHeaders, RedactKeyValues, RedactTokens, HeadersClean, KeysClean, T.TokensClean;
    CleanHeadersUnchanged(text);
    CleanKeysUnchanged(text);
    T.CleanTokensUnchanged(text);
  }

  /** Redacting a redacted text changes nothing. */
  lemma RedactIdempotent(text: string)
    ensures Redact(Redact(text)) == Redact(text)
  {
    hide Redact, Clean;
    RedactedIsClean(text);
    CleanIsUnchanged(Redact(text));
  }

  /** The redactor changes exactly the texts in which some pass has something to redact. */
  lemma RedactUnchangedIffClean(text: string)
    ensures Redact(text) == text <==> Clean(text)
  {
    hide Redact, Clean;
    RedactedIsClean(text);
    if Clean(text) {
      CleanIsUnchanged(text);
    }
  }
}
