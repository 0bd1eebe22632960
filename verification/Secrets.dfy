/**
 * What becomes of a secret, told by the text itself: the value of a sensitive
 * key, in JSON or not, the value of a sensitive header, and a token.
 */
module Secrets {
  import opened Bytes
  import opened RedactionSpec
  import opened CodePoints
  import opened HeaderForms
  import F = KeyForms
  import V = ValueShapes
  import K = RedactionKeys
  import H = RedactionHeaders
  import T = RedactionTokens
  import P = RedactionPasses

  // ---------------------------------------------------------------- key and value

  /** Text without any identifier byte. */
  predicate NoIdentifiers(s: string) {
    forall i | 0 <= i < |s| :: !IsIdentifier(s[i])
  }

  predicate AllBlank(s: string) {
    forall i | 0 <= i < |s| :: s[i] in F.BLANKS
  }

  predicate Word(key: string) {
    key != "" && forall i | 0 <= i < |key| ::
      F.Capital(key[i]) || F.Small(key[i]) || F.Numeral(key[i]) || key[i] in "_-"
  }

  lemma WordIsIdentifier(key: string)
    requires Word(key)
    ensures key != "" && forall i | 0 <= i < |key| :: IsIdentifier(key[i])
  {
    forall i | 0 <= i < |key| ensures IsIdentifier(key[i]) {
      F.ByteClasses(key[i]);
    }
  }

  /** A key as it stands in a text: one maximal run of identifier bytes that ends in a sensitive name. */
  predicate SensitiveWord(key: string) {
    Word(key) && exists name | name in SENSITIVE_KEYS :: F.EndsInName(key, name)
  }

  lemma WordIsKey(key: string)
    requires SensitiveWord(key)
    ensures IsSensitiveKey(NormalizeKey(key)) && key != "" && forall i | 0 <= i < |key| :: IsIdentifier(key[i])
  {
    hide IsSensitiveKey, NormalizeKey, F.EndsInName, IsIdentifier, Word;
    F.SensitiveExactlyWhen(key);
    WordIsIdentifier(key);
  }

  lemma KeyAfter(before: string, key: string, u: string)
    requires NoIdentifiers(before) && key != "" && forall i | 0 <= i < |key| :: IsIdentifier(key[i])
    requires u == "" || !IsIdentifier(u[0])
    ensures var s := before + key + u;
            Lead(NotIdentifier, s) == |before| && KeyEnd(s) == |before| + |key| &&
            s[|before|..|before| + |key|] == key && s[|before| + |key|..] == u
  {
    var s := before + key + u;
    var k, e := |before|, |before| + |key|;
    assert s[k..e] == key && s[e..] == u;
    forall i | k <= i < e ensures IsIdentifier(s[i]) {
      assert s[i] == key[i - k];
    }
    assert e < |s| ==> s[e] == u[0];
    K.FirstKeyAt(s, k, e);
  }

  /** The value of the first key of a text is replaced by the mark, and the scan goes on after it. */
  lemma {:induction false} FirstValueReplaced(before: string, key: string, u: string, a: nat, b: nat)
    requires NoIdentifiers(before) && SensitiveWord(key)
    requires ValueSpan(u) == Span(a, b)
    ensures RedactKeyValues(before + key + u) == before + key + u[..a] + REDACTION + RedactKeyValues(u[b..])
  {
    hide IsSensitiveKey, NormalizeKey, ValueSpan, RedactKeyValues, NextStep, KeyEnd, Lead, SensitiveWord;
    var s, e := before + key + u, |before| + |key|;
    WordIsKey(key);
    assert u != "" && !IsIdentifier(u[0]) by {
      K.ValueSpanPlain(u);
    }
    KeyAfter(before, key, u);
    P.StepForKey(s);
    K.Unfold(s);
    assert s[..e + a] == before + key + u[..a];
    assert s[e + b..] == u[b..];
  }

  lemma StepWithoutValue(key: string, u: string, e: nat)
    requires IsSensitiveKey(NormalizeKey(key)) ==> ValueSpan(u).Missing?
    ensures StepAfter(key, u, e) == Copy(e)
  {
    hide IsSensitiveKey, NormalizeKey, ValueSpan;
  }

  /** A first key that is not sensitive, or has no value, is copied, and the scan goes on after it. */
  lemma {:induction false} FirstKeyCopied(before: string, key: string, u: string)
    requires NoIdentifiers(before) && Word(key) && (u == "" || !IsIdentifier(u[0]))
    requires ValueSpan(u).Missing? || forall name | name in SENSITIVE_KEYS :: !F.EndsInName(key, name)
    ensures RedactKeyValues(before + key + u) == before + key + RedactKeyValues(u)
  {
    hide IsSensitiveKey, NormalizeKey, ValueSpan, RedactKeyValues, NextStep, KeyEnd, Lead, Word, F.EndsInName,
         IsIdentifier;
    var s, e := before + key + u, |before| + |key|;
    WordIsIdentifier(key);
    F.SensitiveExactlyWhen(key);
    KeyAfter(before, key, u);
    P.StepOfKey(s);
    StepWithoutValue(key, u, e);
    K.Unfold(s);
    assert s[..e] == before + key;
  }

  /** Text without any key is kept. */
  lemma {:induction false} NoKeyNoChange(s: string)
    requires NoIdentifiers(s)
    ensures RedactKeyValues(s) == s
  {
    hide RedactKeyValues, NextStep;
    LeadUnique(NotIdentifier, s, |s|);
    K.CopiesPlainPrefix(s);
  }

  /** Where a value lies that follows a gap, a delimiter and blanks. */
  lemma ValueSpanAt(gap: string, delimiter: char, v: string)
    requires F.BlanksAndQuote(gap, 0, |gap|) && delimiter in ":="
    ensures var d := |gap| + 1;
            ValueSpan(gap + [delimiter] + v)
            == match ValueBounds(v) case Missing => Missing case Span(a, b) => Span(d + a, d + b)
  {
    hide ValueBounds, Delimiter;
    var u := gap + [delimiter] + v;
    F.DelimiterExactlyWhen(u, |gap|);
    assert F.BlanksAndQuote(u, 0, |gap|) by {
      var q: nat :| q <= |gap| && (q < |gap| ==> gap[q] == '"') &&
                    forall j | 0 <= j < |gap| && j != q :: gap[j] in F.BLANKS;
      assert q < |gap| ==> u[q] == '"';
      assert q == |gap| ==> u[q] == delimiter;
    }
    assert u[|gap|] == delimiter;
    assert u[|gap| + 1..] == v;
  }

  lemma QuoteEnds(quote: char, after: string)
    requires quote in "\"'"
    ensures QuotedLen(quote, [quote] + after) == 0
  {
  }

  lemma QuotedBounds(space: string, quote: char, value: string, after: string)
    requires AllBlank(space) && quote in "\"'" && quote !in value && '\\' !in value
    ensures var p := |space| + 1;
            ValueBounds(space + [quote] + value + [quote] + after) == Span(p, p + |value|)
  {
    hide Lead, QuotedLen;
    var v, p := space + [quote] + value + [quote] + after, |space|;
    forall i | 0 <= i < p ensures v[i] in F.BLANKS {
      assert v[i] == space[i];
    }
    assert v[p] == quote;
    V.BlanksSkipped(v, p);
    K.QuotedValue(v, p);
    assert v[p + 1..] == value + ([quote] + after);
    K.QuotedLenSkip(quote, value, [quote] + after);
    assert QuotedLen(quote, [quote] + after) == 0 by {
      QuoteEnds(quote, after);
    }
  }

  /** A quoted value of a sensitive key, in JSON or not, is replaced and its quotes are kept. */
  lemma {:induction false} QuotedValueRedacted(before: string, key: string, gap: string, delimiter: char, space: string,
                                               quote: char, value: string, after: string)
    requires NoIdentifiers(before) && SensitiveWord(key) && F.BlanksAndQuote(gap, 0, |gap|) && delimiter in ":="
    requires AllBlank(space) && quote in "\"'" && quote !in value && '\\' !in value
    ensures RedactKeyValues(before + key + gap + [delimiter] + space + [quote] + value + [quote] + after)
         == before + key + gap + [delimiter] + space + [quote] + "[REDACTED]" + RedactKeyValues([quote] + after)
  {
    hide ValueSpan, ValueBounds, RedactKeyValues, SensitiveWord, NoIdentifiers, AllBlank, F.BlanksAndQuote;
    var v := space + [quote] + value + [quote] + after;
    var u := gap + [delimiter] + v;
    QuotedBounds(space, quote, value, after);
    ValueSpanAt(gap, delimiter, v);
    var a := |gap| + 1 + |space| + 1;
    FirstValueReplaced(before, key, u, a, a + |value|);
    assert u == (gap + [delimiter] + space + [quote]) + value + ([quote] + after);
    assert u[..a] == gap + [delimiter] + space + [quote];
    assert u[a + |value|..] == [quote] + after;
    assert before + key + gap + [delimiter] + space + [quote] + value + [quote] + after == before + key + u;
    assert before + key + u[..a] + REDACTION
        == before + key + gap + [delimiter] + space + [quote] + "[REDACTED]";
  }

  /** A value without quotes or brackets at its start, and without blanks, commas and semicolons. */
  predicate BareWord(value: string) {
    value != "" && value[0] !in "\"'[{" && forall i | 0 <= i < |value| :: value[i] !in F.BLANKS && value[i] !in ",;"
  }

  predicate EndsBareWord(after: string) {
    after == "" || after[0] in F.BLANKS || after[0] in ",;"
  }

  lemma BareBounds(space: string, value: string, after: string)
    requires AllBlank(space) && BareWord(value) && EndsBareWord(after)
    ensures ValueBounds(space + value + after) == Span(|space|, |space| + |value|)
  {
    hide Lead, QuotedLen, BalancedLen;
    var v, p := space + value + after, |space|;
    forall i | 0 <= i < p ensures v[i] in F.BLANKS {
      assert v[i] == space[i];
    }
    assert v[p] == value[0];
    V.BlanksSkipped(v, p);
    V.ValueKinds(v);
    assert v[p..] == value + after;
    forall i | 0 <= i < |value| ensures IsBare((value + after)[i]) {
      F.ByteClasses(value[i]);
    }
    if after != "" {
      F.ByteClasses(after[0]);
    }
    LeadUnique(IsBare, value + after, |value|);
  }

  lemma Parts(before: string, key: string, gap: string, delimiter: char, space: string, value: string, after: string)
    ensures var u, a := gap + [delimiter] + (space + value + after), |gap| + 1 + |space|;
            before + key + gap + [delimiter] + space + value + after == before + key + u &&
            u[..a] == gap + [delimiter] + space && u[a + |value|..] == after &&
            before + key + u[..a] + REDACTION == before + key + gap + [delimiter] + space + "[REDACTED]"
  {
    var head := gap + [delimiter] + space;
    var u := gap + [delimiter] + (space + value + after);
    assert u == head + value + after;
    assert u[..|head|] == head;
    assert before + key + head == before + key + gap + [delimiter] + space;
  }

  /** A bare value of a sensitive key is replaced up to the next blank, comma or semicolon. */
  lemma {:induction false} BareValueRedacted(before: string, key: string, gap: string, delimiter: char, space: string,
                                             value: string, after: string)
    requires NoIdentifiers(before) && SensitiveWord(key) && F.BlanksAndQuote(gap, 0, |gap|) && delimiter in ":="
    requires AllBlank(space) && BareWord(value) && EndsBareWord(after)
    ensures RedactKeyValues(before + key + gap + [delimiter] + space + value + after)
         == before + key + gap + [delimiter] + space + "[REDACTED]" + RedactKeyValues(after)
  {
    hide ValueSpan, ValueBounds, RedactKeyValues, SensitiveWord, NoIdentifiers, AllBlank, F.BlanksAndQuote, BareWord,
         EndsBareWord;
    BareBounds(space, value, after);
    var u := gap + [delimiter] + (space + value + after);
    var a := |gap| + 1 + |space|;
    ValueSpanAt(gap, delimiter, space + value + after);
    FirstValueReplaced(before, key, u, a, a + |value|);
    Parts(before, key, gap, delimiter, space, value, after);
  }

  // ------------------------------------------------------------------ JSON members

  /** Bytes that are part of no token. */
  predicate NoTokens(s: string) {
    forall i | 0 <= i < |s| :: !IsToken(s[i])
  }

  predicate LateLetter(c: char) {
    'g' <= c <= 'z'
  }

  predicate StartsLate(name: string) {
    2 <= |name| && (LateLetter(name[0]) || LateLetter(name[1]))
  }

  lemma FirstNamesStartLate(i: nat)
    requires i < 14
    ensures StartsLate(SENSITIVE_KEYS[i])
  {
  }

  lemma LastNamesStartLate(i: nat)
    requires 14 <= i < |SENSITIVE_KEYS|
    ensures StartsLate(SENSITIVE_KEYS[i])
  {
  }

  /** Every name has a letter that is no hexadecimal digit. */
  lemma NameStartsLate(name: string)
    requires name in SENSITIVE_KEYS
    ensures StartsLate(name)
  {
    hide StartsLate;
    var i :| 0 <= i < |SENSITIVE_KEYS| && SENSITIVE_KEYS[i] == name;
    if i < 14 {
      FirstNamesStartLate(i);
    } else {
      LastNamesStartLate(i);
    }
  }

  lemma SpelledLateLetter(c: char, d: char)
    requires F.Spells(c, d) && LateLetter(d)
    ensures !IsHexDigit(c) && c != '-'
  {
  }

  lemma LetterInKey(key: string, name: string) returns (p: nat)
    requires F.EndsInName(key, name) && StartsLate(name)
    ensures p < |key| && !IsHexDigit(key[p]) && key[p] != '-'
  {
    hide F.Spells, LateLetter, IsHexDigit;
    var n := |key| - |name|;
    var j := if LateLetter(name[0]) then 0 else 1;
    p := n + j;
    assert key[n..][j] == key[p];
    SpelledLateLetter(key[p], name[j]);
  }

  lemma LetterMakesNoSecret(key: string, p: nat)
    requires p < |key| && !IsHexDigit(key[p]) && key[p] != '-'
    ensures !IsSensitiveToken(key)
  {
  }

  /** A sensitive key is not itself taken for a token to redact. */
  lemma KeyIsNoSecret(key: string)
    requires SensitiveWord(key)
    ensures !IsSensitiveToken(key)
  {
    var name :| name in SENSITIVE_KEYS && F.EndsInName(key, name);
    hide *;
    NameStartsLate(name);
    var p := LetterInKey(key, name);
    LetterMakesNoSecret(key, p);
  }

  lemma QuoteIsPlain()
    ensures !IsTrimByte('"') && !IsIdentifier('"')
  {
  }

  /** A line that starts with bytes of no name and then a double quote is no header. */
  lemma QuotedLineIsNoHeader(before: string, t: string)
    requires NoIdentifiers(before)
    ensures Header(FirstLine(before + "\"" + t)).Missing?
  {
    hide Header, FirstLine, IsHeaderName, IsTrimByte;
    var s := before + "\"" + t;
    assert s[|before|] == '"' && forall i | 0 <= i < |before| :: s[i] == before[i];
    QuoteIsPlain();
    if Header(FirstLine(s)).Span? {
      H.HeaderShape(s);
      assert false;
    }
  }

  lemma LinesStart(x: string, after: string)
    requires SingleLine(x)
    ensures var s, n := x + after, Lead(NotNewline, x + after);
            |x| <= n && s[..n] == x + s[|x|..n] && (SingleLine(after) ==> n == |s| && s[|x|..n] == after)
  {
    var s, n := x + after, Lead(NotNewline, x + after);
    assert forall i | 0 <= i < |x| :: s[i] == x[i];
    assert n < |s| ==> s[n] == '\n';
    if |x| <= n < |s| {
      assert s[n] == after[n - |x|];
    }
  }

  lemma NoHeaderNoChange(line: string)
    requires Header(line).Missing?
    ensures RedactLine(line) == line
  {
    hide Header;
  }

  lemma Reassociate(x: string, a: string, b: string)
    ensures (x + a) + b == x + (a + b)
  {
  }

  /** A text whose first line is no header is kept up to the end of that line. */
  lemma FirstLineKept(x: string, after: string) returns (y: string)
    requires SingleLine(x) && Header(FirstLine(x + after)).Missing?
    ensures RedactHeaders(x + after) == x + y && (SingleLine(after) ==> y == after)
  {
    hide Header, RedactHeaders, RedactLine, Lead, SingleLine;
    var s := x + after;
    var n := Lead(NotNewline, s);
    NoHeaderNoChange(s[..n]);
    LinesUnfold(s);
    LinesStart(x, after);
    var rest := if n == |s| then "" else "\n" + RedactHeaders(s[n + 1..]);
    y := s[|x|..n] + rest;
    Reassociate(x, s[|x|..n], rest);
  }

  lemma Assoc(a: string, b: string, c: string, d: string, e: string, f: string, g: string)
    ensures a + b + c + d + e + f + g == a + (b + (c + (d + (e + (f + g)))))
  {
  }

  lemma TokensAroundMember(before: string, key: string, gap: string, space: string, z: string)
    requires NoTokens(before) && NoTokens(gap) && gap != "" && NoTokens(space) && space != ""
    requires key != "" && !IsSensitiveToken(key) && forall i | 0 <= i < |key| :: IsToken(key[i])
    ensures RedactTokens(before + key + gap + ":" + space + REDACTION + z)
         == before + key + gap + ":" + space + REDACTION + RedactTokens(z)
  {
    hide RedactTokens, IsSensitiveToken;
    T.KeepMark(z);
    T.SkipBytes(space, REDACTION + z);
    P.ColonTokenKept(":");
    T.KeepToken(":", space + (REDACTION + z));
    T.SkipBytes(gap, ":" + (space + (REDACTION + z)));
    T.KeepToken(key, gap + (":" + (space + (REDACTION + z))));
    T.SkipBytes(before, key + (gap + (":" + (space + (REDACTION + z)))));
    Assoc(before, key, gap, ":", space, REDACTION, z);
    Assoc(before, key, gap, ":", space, REDACTION, RedactTokens(z));
  }

  /** The text up to and including the opening quote of a member's value. */
  function MemberHead(before: string, key: string, space: string, space': string): string {
    before + "\"" + key + "\"" + space + ":" + space' + "\""
  }

  lemma HeadParts(before: string, key: string, space: string, space': string)
    ensures var head := MemberHead(before, key, space, space');
            head == (before + "\"") + key + ("\"" + space) + [':'] + space' + ['"'] &&
            head == (before + "\"") + key + ("\"" + space) + ":" + (space' + "\"") &&
            head == before + "\"" + (key + "\"" + space + ":" + space' + "\"")
  {
  }

  /** White space of one line. */
  predicate Gap(s: string) {
    AllBlank(s) && SingleLine(s)
  }

  lemma MemberPlain(before: string, space: string, space': string)
    requires NoTokens(before) && AllBlank(space) && AllBlank(space')
    ensures NoIdentifiers(before) && NoIdentifiers(before + "\"") && NoTokens(before + "\"")
    ensures NoTokens("\"" + space) && NoTokens(space' + "\"") && F.BlanksAndQuote("\"" + space, 0, |"\"" + space|)
  {
    forall c | c in F.BLANKS ensures !IsToken(c) {
      F.ByteClasses(c);
    }
    var gap := "\"" + space;
    assert gap[0] == '"' && forall j | 1 <= j < |gap| :: gap[j] == space[j - 1];
  }

  lemma {:induction false} QuoteFirst(y: string) returns (z: string)
    ensures RedactKeyValues("\"" + y) == "\"" + z
    ensures NoIdentifiers(y) ==> z == y
  {
    hide RedactKeyValues, NextStep;
    var s := "\"" + y;
    K.KeepsFirstByte(s);
    var o := RedactKeyValues(s);
    z := o[1..];
    if NoIdentifiers(y) {
      assert forall i | 0 <= i < |s| :: !IsIdentifier(s[i]);
      LeadUnique(NotIdentifier, s, |s|);
      K.CopiesPlainPrefix(s);
    }
  }

  lemma {:induction false} NoTokensNoChange(z: string)
    requires NoTokens(z)
    ensures RedactTokens(z) == z
  {
    hide RedactTokens;
    T.SkipBytes(z, "");
    T.FirstTokenByte("");
    assert z + "" == z;
  }

  lemma KeyTokens(key: string)
    requires SensitiveWord(key)
    ensures key != "" && !IsSensitiveToken(key) && forall i | 0 <= i < |key| :: IsToken(key[i])
  {
    WordIsKey(key);
    KeyIsNoSecret(key);
  }

  /** The key pass and the token pass on a member whose value is still there. */
  lemma {:induction false} MemberThroughKeys(before: string, key: string, space: string, space': string, value: string,
                                             y: string) returns (z: string)
    requires NoTokens(before) && SensitiveWord(key) && AllBlank(space) && AllBlank(space')
    requires '"' !in value && '\\' !in value
    ensures RedactTokens(RedactKeyValues(MemberHead(before, key, space, space') + value + "\"" + y))
         == MemberHead(before, key, space, space') + "[REDACTED]" + "\"" + RedactTokens(z)
    ensures NoIdentifiers(y) ==> z == y
  {
    hide RedactTokens, RedactKeyValues, SensitiveWord, NoIdentifiers, NoTokens, AllBlank, MemberHead, F.BlanksAndQuote;
    MemberPlain(before, space, space');
    HeadParts(before, key, space, space');
    QuotedValueRedacted(before + "\"", key, "\"" + space, ':', space', '"', value, y);
    z := QuoteFirst(y);
    KeyTokens(key);
    TokensAroundMember(before + "\"", key, "\"" + space, space' + "\"", "\"" + z);
    T.SkipBytes("\"", z);
    Reassociate(MemberHead(before, key, space, space') + "[REDACTED]", "\"", RedactTokens(z));
  }

  lemma NewlineIsNoIdentifier()
    ensures !IsIdentifier('\n')
  {
  }

  lemma KeySingleLine(key: string)
    requires SensitiveWord(key)
    ensures SingleLine(key)
  {
    hide SensitiveWord, IsSensitiveKey, NormalizeKey, IsIdentifier;
    WordIsKey(key);
    assert !IsIdentifier('\n') by {
      NewlineIsNoIdentifier();
    }
  }

  lemma JoinLines(a: string, b: string, c: string)
    requires SingleLine(a) && SingleLine(b) && SingleLine(c)
    ensures SingleLine(a + b + c)
  {
  }

  lemma HeadOneLine(before: string, key: string, space: string, space': string, value: string)
    requires SingleLine(before) && SensitiveWord(key) && SingleLine(space) && SingleLine(space') && SingleLine(value)
    ensures SingleLine(MemberHead(before, key, space, space') + value + "\"")
  {
    KeySingleLine(key);
    assert SingleLine("\"") && SingleLine(":") && SingleLine("");
    hide SensitiveWord, SingleLine;
    JoinLines(before, "\"", key);
    JoinLines(before + "\"" + key, "\"", space);
    JoinLines(before + "\"" + key + "\"" + space, ":", space');
    JoinLines(before + "\"" + key + "\"" + space + ":" + space', "\"", value);
    JoinLines(before + "\"" + key + "\"" + space + ":" + space' + "\"" + value, "\"", "");
    var x := MemberHead(before, key, space, space') + value + "\"";
    assert x + "" == x;
  }

  lemma PlainHasNoIdentifiers(s: string)
    requires NoTokens(s)
    ensures NoIdentifiers(s)
  {
  }

  /**
   * In a JSON member with a sensitive key and a string value, the whole
   * redactor puts the mark in place of the value and nothing of the value is
   * left; what comes after the member does not matter.
   */
  lemma JsonMemberRedacted(before: string, key: string, space: string, space': string, value: string, after: string)
    returns (rest: string)
    requires NoTokens(before) && SingleLine(before) && SensitiveWord(key) && Gap(space) && Gap(space')
    requires SingleLine(value) && '"' !in value && '\\' !in value
    ensures Redact(before + "\"" + key + "\"" + space + ":" + space' + "\"" + value + "\"" + after)
         == before + "\"" + key + "\"" + space + ":" + space' + "\"[REDACTED]\"" + rest
    ensures SingleLine(after) && NoTokens(after) ==> rest == after
  {
    hide RedactHeaders, RedactKeyValues, RedactTokens, SensitiveWord, NoTokens, NoIdentifiers, Header, FirstLine,
         SingleLine, AllBlank, F.BlanksAndQuote;
    var head := MemberHead(before, key, space, space');
    var x := head + value + "\"";
    MemberPlain(before, space, space');
    HeadParts(before, key, space, space');
    HeadOneLine(before, key, space, space', value);
    var inner := key + "\"" + space + ":" + space' + "\"";
    assert x + after == before + "\"" + (inner + value + "\"" + after);
    QuotedLineIsNoHeader(before, inner + value + "\"" + after);
    var y := FirstLineKept(x, after);
    var z := MemberThroughKeys(before, key, space, space', value, y);
    rest := RedactTokens(z);
    if SingleLine(after) && NoTokens(after) {
      PlainHasNoIdentifiers(after);
      NoTokensNoChange(after);
    }
  }

  lemma ObjectParts(key: string, value: string)
    ensures "{" + "\"" + key + "\"" + "" + ":" + "" + "\"" + value + "\"" + "}" == "{\"" + key + "\":\"" + value + "\"}"
    ensures "{" + "\"" + key + "\"" + "" + ":" + "" + "\"[REDACTED]\"" + "}" == "{\"" + key + "\":\"[REDACTED]\"}"
  {
  }

  /** So a JSON object with one such member is known to the last byte. */
  lemma JsonObjectRedacted(key: string, value: string)
    requires SensitiveWord(key) && SingleLine(value) && '"' !in value && '\\' !in value
    ensures Redact("{\"" + key + "\":\"" + value + "\"}") == "{\"" + key + "\":\"[REDACTED]\"}"
  {
    hide Redact, SensitiveWord;
    ObjectParts(key, value);
    var rest := JsonMemberRedacted("{", key, "", "", value, "}");
  }

  lemma PasswordIsWord()
    ensures SensitiveWord("password")
  {
    assert F.EndsInName("password", "password") by {
      F.SpelledOutWhen("password", "password");
      assert "password"[0..] == "password" == NormalizeKey("password");
    }
    hide F.EndsInName;
    assert SENSITIVE_KEYS[3] == "password";
  }

  // ----------------------------------------------------------------------- headers

  lemma MarkedHeader(white: string, name: string)
    requires NoIdentifiers(white) && name != "" && forall i | 0 <= i < |name| :: IsIdentifier(name[i])
    requires IsSensitiveKey(NormalizeKey(name))
    ensures RedactKeyValues(white + name + ": [REDACTED]") == white + name + ": [REDACTED]"
  {
    hide RedactKeyValues, IsSensitiveKey, NormalizeKey, NextStep, KeyEnd, Lead, ValueSpan, NoIdentifiers;
    var u := ": [REDACTED]";
    var s, e := white + name + u, |white| + |name|;
    KeyAfter(white, name, u);
    assert ": " + REDACTION + "" == u;
    P.MarkAfterColon("");
    P.StepForKey(s);
    K.Unfold(s);
    K.KeepsFirstByte("");
    assert s[..e + 2] == white + name + ": " && s[e + 12..] == "";
    assert white + name + ": " + REDACTION + "" == s;
  }

  lemma NothingToTrim()
    ensures TrimLen("") == 0
  {
  }

  lemma TrimByteIsPlain(c: char)
    requires IsTrimByte(c)
    ensures !IsIdentifier(c) && !IsToken(c)
  {
  }

  lemma WhiteIsPlain(white: seq<nat>)
    requires AllWhite(white)
    ensures NoIdentifiers(EncodeAll(white)) && NoTokens(EncodeAll(white))
  {
    hide EncodeAll, IsTrimByte, WhiteSpace;
    TrimsWhite(white, "");
    NothingToTrim();
    var w := EncodeAll(white);
    assert w + "" == w;
    forall i | 0 <= i < |w| ensures !IsIdentifier(w[i]) && !IsToken(w[i]) {
      TrimByteIsPlain(w[i]);
    }
  }

  /** The whole redactor leaves nothing of the value of a sensitive header but the mark. */
  lemma HeaderRedacted(line: string, white: seq<nat>, name: string, value: string)
    requires HeaderLine(line, white, name, value) && 0xA !in white && SingleLine(value)
    ensures Redact(line) == EncodeAll(white) + name + ": [REDACTED]"
  {
    hide RedactHeaders, RedactKeyValues, RedactTokens, EncodeAll, Named, IsHeaderName, IsSensitiveKey, NormalizeKey,
         WhiteSpace;
    NamedHeaderRedacted(line, white, name, value);
    NamedWhen(name);
    H.HeaderNameBytes(name);
    H.HeaderNameIsKey(name);
    WhiteIsPlain(white);
    var w := EncodeAll(white);
    MarkedHeader(w, name);
    P.RedactedHeaderKept(w, name, "");
    T.FirstTokenByte("");
    assert w + name + ": " + REDACTION + "" == w + name + ": [REDACTED]";
  }

  // ------------------------------------------------------------------------ tokens

  predicate TokenByte(c: char) {
    F.Capital(c) || F.Small(c) || F.Numeral(c) || c in "-_.:"
  }

  predicate HexByte(c: char) {
    F.Numeral(c) || c in "abcdefABCDEF"
  }

  /** Thirty-two or more hexadecimal digits, or eight, six and six of them with hyphens between. */
  predicate LooksSecret(token: string) {
    (32 <= |token| && forall i | 0 <= i < |token| :: HexByte(token[i])) ||
    (|token| == 22 && token[8] == token[15] == '-' &&
     forall i | 0 <= i < 22 && i != 8 && i != 15 :: HexByte(token[i]))
  }

  lemma HexByteWhen(c: char)
    ensures HexByte(c) <==> IsHexDigit(c)
  {
    F.ByteClasses(c);
  }

  lemma LooksSecretWhen(token: string)
    ensures LooksSecret(token) <==> IsSensitiveToken(token)
  {
    hide HexByte, IsHexDigit;
    forall c: char ensures HexByte(c) <==> IsHexDigit(c) {
      HexByteWhen(c);
    }
  }

  lemma TokenBytes(token: string)
    requires forall i | 0 <= i < |token| :: TokenByte(token[i])
    ensures forall i | 0 <= i < |token| :: IsToken(token[i])
  {
    forall i | 0 <= i < |token| ensures IsToken(token[i]) {
      F.ByteClasses(token[i]);
    }
  }

  /** A maximal token is replaced exactly if it looks like a secret, and what is around it is treated apart. */
  lemma {:induction false} TokenRedacted(before: string, token: string, after: string)
    requires token != "" && forall i | 0 <= i < |token| :: TokenByte(token[i])
    requires before == "" || !TokenByte(before[|before| - 1])
    requires after == "" || !TokenByte(after[0])
    ensures RedactTokens(before + token + after)
         == RedactTokens(before) + (if LooksSecret(token) then "[REDACTED]" else token) + RedactTokens(after)
  {
    hide RedactTokens, LooksSecret, IsSensitiveToken, IsToken;
    LooksSecretWhen(token);
    TokenBytes(token);
    if before != "" {
      F.ByteClasses(before[|before| - 1]);
    }
    if after != "" {
      F.ByteClasses(after[0]);
    }
    hide TokenByte;
    T.RedactParts(before, token + after);
    assert before + token + after == before + (token + after);
    if LooksSecret(token) {
      T.SensitiveTokenReplaced(before, token, after);
    } else {
      T.KeepToken(token, after);
    }
  }
}
