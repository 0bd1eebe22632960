/**
 * The key/value pass: in its output every sensitive key that is followed by a
 * delimiter and a value has the redaction mark as that value, and exactly the
 * texts with this property are left alone.
 */
module RedactionKeys {
  import opened Bytes
  import opened RedactionSpec

  /** A maximal run of identifier bytes. */
  predicate IdentifierRun(s: string, start: nat, end: nat) {
    start < end <= |s| &&
    (forall i | start <= i < end :: IsIdentifier(s[i])) &&
    (start == 0 || !IsIdentifier(s[start - 1])) &&
    (end == |s| || !IsIdentifier(s[end]))
  }

  /** The text `u` after a key gives the key no value, or the redaction mark. */
  predicate ValueRedacted(u: string) {
    match ValueSpan(u)
    case Missing => true
    case Span(a, b) => u[a..b] == REDACTION
  }

  /** Every sensitive key of the text has no value or the redaction mark. */
  ghost predicate KeysClean(s: string) {
    forall start: nat, end: nat | IdentifierRun(s, start, end) && IsSensitiveKey(NormalizeKey(s[start..end])) ::
      ValueRedacted(s[end..])
  }

  // ------------------------------------------------- what the scans depend on

  lemma DelimiterProbeLocal(u: string, o: string)
    requires var b := DelimiterProbe(u);
             b < |u| && b < |o| && o[..b] == u[..b] && !IsSpace(o[b]) && (o[b] == '"' ==> u[b] == '"')
    ensures DelimiterProbe(o) == DelimiterProbe(u)
  {
    var b := DelimiterProbe(u);
    var a := Lead(IsSpace, u);
    assert o[..a] == o[..b][..a] == u[..b][..a] == u[..a];
    assert a < b ==> o[a] == o[..b][a] == u[..b][a] == u[a];
    LeadSame(IsSpace, u, o);
    if a < |u| && u[a] == '"' {
      var n := b - (a + 1);
      assert o[a + 1..][..n] == o[..b][a + 1..] == u[..b][a + 1..] == u[a + 1..][..n];
      LeadSame(IsSpace, u[a + 1..], o[a + 1..]);
    }
  }

  /** Nothing before the examined byte is an identifier byte. */
  lemma DelimiterProbePlain(u: string)
    ensures forall i | 0 <= i < DelimiterProbe(u) :: IsSpace(u[i]) || u[i] == '"'
    ensures var b := DelimiterProbe(u); b < |u| ==> !IsSpace(u[b])
  {
    var a := Lead(IsSpace, u);
    if a < |u| && u[a] == '"' {
      var b := a + 1 + Lead(IsSpace, u[a + 1..]);
      forall i | 0 <= i < b ensures IsSpace(u[i]) || u[i] == '"' {
        if a < i {
          assert u[i] == u[a + 1..][i - (a + 1)];
        }
      }
    }
  }

  lemma ValueBoundsPlain(v: string)
    requires ValueBounds(v).Span?
    ensures forall i | 0 <= i < ValueBounds(v).start :: IsSpace(v[i]) || IsQuote(v[i])
  {
  }

  /** A byte that ends a quoted or a bare value. */
  predicate IsStop(c: char) {
    IsQuote(c) || !IsBare(c)
  }

  lemma QuotedStops(v: string, a: nat)
    requires a < |v| && IsQuote(v[a])
    ensures var end := a + 1 + QuotedLen(v[a], v[a + 1..]); end <= |v| && (end < |v| ==> IsQuote(v[end]))
  {
    hide QuotedLen;
    var n := QuotedLen(v[a], v[a + 1..]);
    assert n < |v[a + 1..]| ==> v[a + 1..][n] == v[a + 1 + n];
  }

  lemma BracketStops(v: string, a: nat, open: char, close: char)
    requires a < |v|
    ensures var end := a + BalancedLen(open, close, 0, v[a..]);
            end <= |v| && (end < |v| ==> a < end && v[end - 1] == close)
  {
    hide BalancedLen;
    var n := BalancedLen(open, close, 0, v[a..]);
    assert 0 < n ==> v[a..][n - 1] == v[a + n - 1];
  }

  lemma BareStops(v: string, a: nat)
    requires a < |v|
    ensures var end := a + Lead(IsBare, v[a..]); end <= |v| && (end < |v| ==> !IsBare(v[end]))
  {
    hide Lead;
    var n := Lead(IsBare, v[a..]);
    assert n < |v[a..]| ==> v[a..][n] == v[a + n];
  }

  /** A value ends with the text, before a stop, or with a closing bracket. */
  lemma ValueStops(v: string)
    requires ValueBounds(v).Span?
    ensures var p := ValueBounds(v);
            (p.start == 0 || IsSpace(v[p.start - 1]) || IsQuote(v[p.start - 1])) &&
            (p.end == |v| || IsStop(v[p.end]) || (0 < p.end && v[p.end - 1] in [']', '}']))
  {
    hide QuotedLen, BalancedLen, Lead, IsBare, IsSpace;
    var a := Lead(IsSpace, v);
    if IsQuote(v[a]) {
      QuotedStops(v, a);
    } else if v[a] == '[' {
      BracketStops(v, a, '[', ']');
    } else if v[a] == '{' {
      BracketStops(v, a, '{', '}');
    } else {
      BareStops(v, a);
    }
  }

  /** The bytes between a key and its value are spaces, quotes and one delimiter. */
  lemma ValueSpanPlain(u: string)
    requires ValueSpan(u).Span?
    ensures forall i | 0 <= i < ValueSpan(u).start :: IsSpace(u[i]) || IsQuote(u[i]) || IsDelimiter(u[i])
  {
    hide ValueBounds, DelimiterProbe;
    DelimiterProbePlain(u);
    var d := Delimiter(u).end;
    var v := u[d..];
    ValueBoundsPlain(v);
    forall i | d <= i < ValueSpan(u).start ensures IsSpace(u[i]) || IsQuote(u[i]) || IsDelimiter(u[i]) {
      assert u[i] == v[i - d];
    }
  }

  lemma {:induction false} QuotedLenSkip(quote: char, x: string, t: string)
    requires quote !in x && '\\' !in x
    ensures QuotedLen(quote, x + t) == |x| + QuotedLen(quote, t)
  {
    if x == "" {
      assert x + t == t;
    } else {
      assert (x + t)[1..] == x[1..] + t;
      assert (x + t)[0] == x[0] && x[0] in x;
      QuotedLenSkip(quote, x[1..], t);
    }
  }

  lemma {:induction false} BalancedLenSkip(depth: nat, x: string, t: string)
    requires forall c | c in x :: IsAlphanumeric(c)
    ensures BalancedLen('[', ']', depth, x + t) == |x| + BalancedLen('[', ']', depth, t)
  {
    if x == "" {
      assert x + t == t;
    } else {
      assert (x + t)[1..] == x[1..] + t;
      assert (x + t)[0] == x[0] && x[0] in x;
      BalancedLenSkip(depth, x[1..], t);
    }
  }

  lemma {:induction false} RedactionBalanced(t: string)
    ensures BalancedLen('[', ']', 0, REDACTION + t) == |REDACTION|
  {
    assert (REDACTION + t)[1..] == "REDACTED" + ("]" + t);
    BalancedLenSkip(1, "REDACTED", "]" + t);
  }

  lemma DelimiterLocal(u: string, o: string)
    requires var d := Delimiter(u); d.Span? && d.end <= |o| && o[..d.end] == u[..d.end]
    ensures Delimiter(o) == Delimiter(u)
  {
    var d := Delimiter(u).start;
    assert o[d] == o[..d + 1][d] == u[d];
    assert o[..d] == o[..d + 1][..d] == u[..d];
    DelimiterProbeLocal(u, o);
  }

  /** The first non-space byte of the rest decides which kind of value it is. */
  lemma BracketBounds(w: string, a: nat, t: string)
    requires forall i | 0 <= i < a :: i < |w| && IsSpace(w[i])
    requires a <= |w| && w[a..] == REDACTION + t
    ensures ValueBounds(w) == Span(a, a + |REDACTION|)
  {
    assert w[a] == w[a..][0];
    LeadUnique(IsSpace, w, a);
    RedactionBalanced(t);
  }

  lemma QuoteBounds(w: string, a: nat, quote: char, t: string)
    requires forall i | 0 <= i < a :: i < |w| && IsSpace(w[i])
    requires a < |w| && w[a] == quote && IsQuote(quote)
    requires w[a + 1..] == REDACTION + t
    requires t == "" || t[0] == quote
    ensures ValueBounds(w) == Span(a + 1, a + 1 + |REDACTION|)
  {
    LeadUnique(IsSpace, w, a);
    QuotedLenSkip(quote, REDACTION, t);
  }

  lemma DropFromSplice(u: string, from: nat, a: nat, r: string, t: string)
    requires from <= a <= |u|
    ensures (u[..a] + r + t)[..from] == u[..from]
    ensures (u[..a] + r + t)[from..] == u[from..][..a - from] + r + t
  {
  }

  lemma QuotedValue(v: string, p: nat)
    requires p == Lead(IsSpace, v) < |v| && IsQuote(v[p])
    ensures ValueBounds(v) == Span(p + 1, p + 1 + QuotedLen(v[p], v[p + 1..]))
  {
    hide Lead, QuotedLen, BalancedLen, IsSpace, IsQuote, IsBare;
  }

  lemma OtherValue(v: string, a: nat, b: nat)
    requires var p := Lead(IsSpace, v); p < |v| ==> !IsQuote(v[p])
    requires ValueBounds(v) == Span(a, b)
    ensures a == Lead(IsSpace, v) < |v|
  {
    hide Lead, QuotedLen, BalancedLen, IsSpace, IsQuote, IsBare;
  }

  /** A value starts after the spaces and, if it is quoted, after its opening quote, and ends before a closing one. */
  lemma ValueBoundsShape(v: string, a: nat, b: nat)
    requires ValueBounds(v) == Span(a, b)
    ensures a <= b <= |v|
    ensures var p := Lead(IsSpace, v);
            p < |v| && (forall i | 0 <= i < p :: IsSpace(v[i])) &&
            a == (if IsQuote(v[p]) then p + 1 else p) && (IsQuote(v[p]) && b < |v| ==> v[b] == v[p])
  {
    hide Lead, QuotedLen, BalancedLen, ValueBounds;
    var p := Lead(IsSpace, v);
    if p < |v| && IsQuote(v[p]) {
      QuotedValue(v, p);
      if b < |v| {
        DropAt(v, p + 1, b);
      }
    } else {
      OtherValue(v, a, b);
    }
  }

  lemma ValueBoundsReadback(v: string, a: nat, b: nat, t: string)
    requires ValueBounds(v) == Span(a, b)
    requires b == |v| ==> t == ""
    requires b < |v| && IsQuote(v[b]) ==> t != "" && t[0] == v[b]
    ensures ValueBounds(v[..a] + REDACTION + t) == Span(a, a + |REDACTION|)
  {
    var w := v[..a] + REDACTION + t;
    var p := Lead(IsSpace, v);
    ValueBoundsShape(v, a, b);
    hide ValueBounds, Lead;
    DropFromSplice(v, a, a, REDACTION, t);
    assert v[a..][..0] + REDACTION + t == REDACTION + t;
    forall i | 0 <= i < a ensures w[i] == v[i] {
      assert w[i] == w[..a][i] == v[i];
    }
    if IsQuote(v[p]) {
      QuoteBounds(w, p, v[p], t);
    } else {
      BracketBounds(w, p, t);
    }
  }

  /**
   * Whatever form the value had (quoted, bracketed, unterminated, bare or
   * empty), the mark put in its place is read back as exactly the value.
   */
  lemma ValueReadback(u: string, a: nat, b: nat, t: string)
    requires ValueSpan(u) == Span(a, b)
    requires b == |u| ==> t == ""
    requires b < |u| && IsQuote(u[b]) ==> t != "" && t[0] == u[b]
    ensures ValueSpan(u[..a] + REDACTION + t) == Span(a, a + |REDACTION|)
  {
    hide ValueBounds, Delimiter;
    var o := u[..a] + REDACTION + t;
    var d := Delimiter(u).end;
    DropFromSplice(u, d, a, REDACTION, t);
    DelimiterLocal(u, o);
    ValueBoundsReadback(u[d..], a - d, b - d, t);
  }

  // ------------------------------------------------------- the output is clean

  /** One step of the pass, with the scan that chose it out of sight. */
  lemma {:induction false} Unfold(s: string)
    ensures match NextStep(s)
            case Finish => RedactKeyValues(s) == s
            case Copy(e) => RedactKeyValues(s) == s[..e] + RedactKeyValues(s[e..])
            case Replace(a, b) => RedactKeyValues(s) == s[..a] + REDACTION + RedactKeyValues(s[b..])
  {
    hide NextStep;
  }

  /** The output starts with everything up to position `n` of the text. */
  predicate KeepsUpTo(s: string, o: string, n: nat) {
    n <= |s| && n <= |o| && o[..n] == s[..n]
  }

  lemma SpliceKeeps(s: string, a: nat, r: string, n: nat)
    requires n <= a <= |s|
    ensures KeepsUpTo(s, s[..a] + r, n)
  {
  }

  /** The pass copies everything up to and including the first identifier byte. */
  lemma {:induction false} CopiesPlainPrefix(s: string)
    ensures Lead(NotIdentifier, s) == |s| ==> RedactKeyValues(s) == s
    ensures Lead(NotIdentifier, s) < |s| ==> KeepsUpTo(s, RedactKeyValues(s), Lead(NotIdentifier, s) + 1)
  {
    hide RedactKeyValues, NextStep, ValueSpan, IsSensitiveKey;
    var k := Lead(NotIdentifier, s);
    Unfold(s);
    match NextStep(s)
    case Finish =>
    case Copy(e) => SpliceKeeps(s, e, RedactKeyValues(s[e..]), k + 1);
    case Replace(a, b) =>
      SpliceKeeps(s, a, REDACTION, k + 1);
      SpliceKeeps(s[..a] + REDACTION, a + |REDACTION|, RedactKeyValues(s[b..]), k + 1);
  }

  lemma {:induction false} KeepsFirstByte(s: string)
    ensures s == "" ==> RedactKeyValues(s) == ""
    ensures s != "" ==> RedactKeyValues(s) != "" && RedactKeyValues(s)[0] == s[0]
  {
    hide RedactKeyValues, NextStep, ValueSpan, IsSensitiveKey;
    CopiesPlainPrefix(s);
    var k := Lead(NotIdentifier, s);
    if k < |s| {
      assert RedactKeyValues(s)[0] == RedactKeyValues(s)[..k + 1][0] == s[..k + 1][0];
    }
  }

  /** A delimiter with no value is followed by nothing but spaces. */
  lemma BlankAfterDelimiter(u: string)
    requires Delimiter(u).Span? && ValueSpan(u).Missing?
    ensures forall i | 0 <= i < |u| :: IsSpace(u[i]) || u[i] == '"' || IsDelimiter(u[i])
  {
    DelimiterProbePlain(u);
    var d := Delimiter(u).end;
    var v := u[d..];
    assert Lead(IsSpace, v) == |v|;
    forall i | d <= i < |u| ensures IsSpace(u[i]) {
      assert u[i] == v[i - d];
    }
  }

  lemma MissingDelimiterIsLocal(u: string, o: string, n: nat)
    requires Delimiter(u).Missing? && DelimiterProbe(u) < n
    requires KeepsUpTo(u, o, n)
    ensures Delimiter(o).Missing?
  {
    var b := DelimiterProbe(u);
    DelimiterProbePlain(u);
    assert o[..b] == o[..n][..b] == u[..b];
    assert o[b] == o[..n][b] == u[b];
    DelimiterProbeLocal(u, o);
  }

  /** A key that had no value before the rest was redacted has none afterwards. */
  lemma {:induction false} MissingStaysMissing(u: string)
    requires ValueSpan(u).Missing?
    ensures ValueSpan(RedactKeyValues(u)).Missing?
  {
    hide RedactKeyValues, NextStep, ValueBounds;
    CopiesPlainPrefix(u);
    var k := Lead(NotIdentifier, u);
    if k < |u| {
      assert !IsSpace(u[k]) && u[k] != '"' && !IsDelimiter(u[k]);
      DelimiterProbePlain(u);
      if Delimiter(u).Span? {
        BlankAfterDelimiter(u);
        assert false;
      }
      MissingDelimiterIsLocal(u, RedactKeyValues(u), k + 1);
    }
  }

  // -------------------------------------------------- runs and parts of a text

  /** A run is determined by any of its positions. */
  lemma RunsMeet(s: string, k: nat, e: nat, start: nat, end: nat)
    requires IdentifierRun(s, k, e) && IdentifierRun(s, start, end)
    requires k < end && start < e
    ensures start == k && end == e
  {
  }

  lemma RunInSuffix(s: string, n: nat, start: nat, end: nat)
    requires IdentifierRun(s, start, end) && n <= start
    ensures IdentifierRun(s[n..], start - n, end - n)
    ensures s[n..][start - n..end - n] == s[start..end] && s[n..][end - n..] == s[end..]
  {
    DropTake(s, n, start, end);
    DropDrop(s, n, end - n);
    forall i | start - n <= i < end - n ensures IsIdentifier(s[n..][i]) {
      DropAt(s, n, n + i);
    }
    if n < start {
      DropAt(s, n, start - 1);
    }
    if end < |s| {
      DropAt(s, n, end);
    }
  }

  lemma RunFromSuffix(s: string, n: nat, start: nat, end: nat)
    requires n <= |s| && IdentifierRun(s[n..], start, end)
    requires 0 < start || n == 0 || !IsIdentifier(s[n - 1])
    ensures IdentifierRun(s, n + start, n + end)
    ensures s[n..][start..end] == s[n + start..n + end] && s[n..][end..] == s[n + end..]
  {
    forall i | n + start <= i < n + end ensures IsIdentifier(s[i]) {
      assert s[i] == s[n..][i - n];
    }
    assert 0 < start ==> s[n + start - 1] == s[n..][start - 1];
    assert n + end < |s| ==> s[n + end] == s[n..][end];
  }

  predicate Boundary(s: string, n: nat) {
    n <= |s| && (n == |s| || !IsIdentifier(s[n]) || n == 0 || !IsIdentifier(s[n - 1]))
  }

  lemma CleanSuffix(s: string, n: nat)
    requires KeysClean(s) && Boundary(s, n)
    ensures KeysClean(s[n..])
  {
    forall start: nat, end: nat |
      IdentifierRun(s[n..], start, end) && IsSensitiveKey(NormalizeKey(s[n..][start..end]))
      ensures ValueRedacted(s[n..][end..])
    {
      RunFromSuffix(s, n, start, end);
    }
  }

  /** A text is clean if its first part has only good keys and its rest is clean. */
  lemma CleanFromParts(s: string, n: nat)
    requires n <= |s| && KeysClean(s[n..])
    requires forall start: nat, end: nat |
               IdentifierRun(s, start, end) && start < n && IsSensitiveKey(NormalizeKey(s[start..end])) ::
               ValueRedacted(s[end..])
    ensures KeysClean(s)
  {
    forall start: nat, end: nat | IdentifierRun(s, start, end) && IsSensitiveKey(NormalizeKey(s[start..end]))
      ensures ValueRedacted(s[end..])
    {
      if n <= start {
        RunInSuffix(s, n, start, end);
      }
    }
  }

  // ------------------------------------------------------ one step of the pass

  lemma {:induction false} FirstRun(s: string)
    requires Lead(NotIdentifier, s) < |s|
    ensures IdentifierRun(s, Lead(NotIdentifier, s), KeyEnd(s))
  {
    var k := Lead(NotIdentifier, s);
    var e := KeyEnd(s);
    forall i | k <= i < e ensures IsIdentifier(s[i]) {
      assert s[i] == s[k..][i - k];
    }
    assert e < |s| ==> s[e] == s[k..][e - k];
  }

  lemma {:induction false} FirstKeyAt(s: string, k: nat, e: nat)
    requires IdentifierRun(s, k, e) && forall i | 0 <= i < k :: !IsIdentifier(s[i])
    ensures Lead(NotIdentifier, s) == k && KeyEnd(s) == e
  {
    LeadUnique(NotIdentifier, s, k);
    forall i | 0 <= i < e - k ensures IsIdentifier(s[k..][i]) {
      assert s[k..][i] == s[k + i];
    }
    LeadUnique(IsIdentifier, s[k..], e - k);
  }

  lemma {:induction false} StepCopies(s: string, e: nat)
    requires NextStep(s) == Copy(e)
    ensures Lead(NotIdentifier, s) < |s| && e == KeyEnd(s)
    ensures IsSensitiveKey(NormalizeKey(s[Lead(NotIdentifier, s)..e])) ==> ValueSpan(s[e..]).Missing?
    ensures Boundary(s, e)
  {
    hide IsSensitiveKey, ValueSpan;
    FirstRun(s);
  }

  lemma {:induction false} StepReplaces(s: string, a: nat, b: nat)
    requires NextStep(s) == Replace(a, b)
    ensures Lead(NotIdentifier, s) < |s| && KeyEnd(s) < a
    ensures IsSensitiveKey(NormalizeKey(s[Lead(NotIdentifier, s)..KeyEnd(s)]))
    ensures ValueSpan(s[KeyEnd(s)..]) == Span(a - KeyEnd(s), b - KeyEnd(s))
  {
    hide IsSensitiveKey, ValueSpan;
  }

  /** The mark itself is not a sensitive key. */
  lemma NoUnderscore(key: string, ending: string)
    requires '_' !in key
    ensures !EndsWith(key, "_" + ending)
  {
    assert |"_" + ending| <= |key| ==> key[|key| - |"_" + ending|] != ("_" + ending)[0];
  }

  lemma MarkIsNotAKey()
    ensures !IsSensitiveKey(NormalizeKey("REDACTED"))
  {
    var key := NormalizeKey("REDACTED");
    assert key == "redacted";
    hide NormalizeKey;
    forall sensitive ensures !EndsWith(key, "_" + sensitive) {
      NoUnderscore(key, sensitive);
    }
    assert key !in SENSITIVE_KEYS;
  }

  /** Two texts with the same bytes up to just after a run have the same run there. */
  lemma SameRun(s: string, o: string, k: nat, e: nat)
    requires IdentifierRun(s, k, e) && KeepsUpTo(s, o, e)
    requires e < |o| ==> !IsIdentifier(o[e])
    ensures IdentifierRun(o, k, e) && o[k..e] == s[k..e]
  {
    assert forall i | 0 <= i < e :: o[i] == o[..e][i] == s[..e][i] == s[i];
    assert o[k..e] == o[..e][k..e] == s[..e][k..e];
  }

  lemma CleanAfterCopy(s: string, e: nat, t: string)
    requires NextStep(s) == Copy(e) && KeysClean(t)
    requires t != "" ==> e < |s| && t[0] == s[e]
    requires ValueSpan(s[e..]).Missing? ==> ValueSpan(t).Missing?
    ensures KeysClean(s[..e] + t)
  {
    hide NextStep, ValueSpan, IsSensitiveKey;
    var k := Lead(NotIdentifier, s);
    var o := s[..e] + t;
    StepCopies(s, e);
    FirstRun(s);
    SpliceKeeps(s, e, t, e);
    SameRun(s, o, k, e);
    assert o[e..] == t;
    assert forall i | 0 <= i < k :: o[i] == s[i] && !IsIdentifier(o[i]);
    forall start: nat, end: nat |
      IdentifierRun(o, start, end) && start < e && IsSensitiveKey(NormalizeKey(o[start..end]))
      ensures ValueRedacted(o[end..])
    {
      assert IsIdentifier(o[start]);
      RunsMeet(o, k, e, start, end);
    }
    CleanFromParts(o, e);
  }

  lemma WordRun(x: string, word: string, t: string)
    requires word != "" && forall i | 0 <= i < |word| :: IsIdentifier(word[i])
    requires x != "" && !IsIdentifier(x[|x| - 1])
    requires t != "" && !IsIdentifier(t[0])
    ensures IdentifierRun(x + word + t, |x|, |x| + |word|)
    ensures (x + word + t)[|x|..|x| + |word|] == word
  {
    var o := x + word + t;
    forall i | |x| <= i < |x| + |word| ensures IsIdentifier(o[i]) {
      assert o[i] == word[i - |x|];
    }
  }

  /** The only run that starts in a mark is its own word. */
  lemma RunInMark(x: string, t: string, start: nat, end: nat)
    requires var o := x + REDACTION + t;
             IdentifierRun(o, start, end) && |x| <= start < |x| + |REDACTION|
    ensures !IsSensitiveKey(NormalizeKey((x + REDACTION + t)[start..end]))
  {
    hide IsSensitiveKey, NormalizeKey;
    var o := x + REDACTION + t;
    assert o == (x + "[") + "REDACTED" + ("]" + t);
    WordRun(x + "[", "REDACTED", "]" + t);
    assert o[|x| + 9] == ']' && o[|x|] == '[';
    RunsMeet(o, |x| + 1, |x| + 9, start, end);
    MarkIsNotAKey();
  }

  /** Between a key and its value there is no other run. */
  lemma {:induction false} RunBeforeValue(s: string, a: nat, b: nat, o: string, start: nat, end: nat)
    requires NextStep(s) == Replace(a, b) && KeepsUpTo(s, o, a)
    requires IdentifierRun(o, start, end) && start < a
    ensures start == Lead(NotIdentifier, s) && end == KeyEnd(s)
  {
    hide IsSensitiveKey, NextStep, ValueSpan;
    var k, e := Lead(NotIdentifier, s), KeyEnd(s);
    StepReplaces(s, a, b);
    FirstRun(s);
    assert forall i | 0 <= i < a :: o[i] == o[..a][i] == s[..a][i] == s[i];
    ValueSpanPlain(s[e..]);
    forall i | e <= i < a ensures !IsIdentifier(o[i]) {
      assert o[i] == s[e..][i - e];
    }
    TakeDrop(o, a, e);
    TakeDrop(s, a, e);
    SameRun(s, o, k, e);
    assert forall i | 0 <= i < k :: NotIdentifier(s[i]);
    assert IsIdentifier(o[start]);
    RunsMeet(o, k, e, start, end);
  }

  /** Of the runs before the end of the mark only the key is sensitive, and its value is the mark. */
  lemma KeyBeforeMark(s: string, a: nat, b: nat, t: string, start: nat, end: nat)
    requires NextStep(s) == Replace(a, b)
    requires b == |s| ==> t == ""
    requires b < |s| ==> t != "" && t[0] == s[b]
    requires var o := s[..a] + REDACTION + t;
             IdentifierRun(o, start, end) && start < a + |REDACTION| && IsSensitiveKey(NormalizeKey(o[start..end]))
    ensures ValueRedacted((s[..a] + REDACTION + t)[end..])
  {
    hide NextStep, ValueSpan, IsSensitiveKey, IdentifierRun, KeyEnd, NormalizeKey, Lead;
    var e := KeyEnd(s);
    var o := s[..a] + REDACTION + t;
    StepReplaces(s, a, b);
    if a <= start {
      RunInMark(s[..a], t, start, end);
    }
    SpliceKeeps(s, a, REDACTION + t, a);
    assert o == s[..a] + (REDACTION + t);
    RunBeforeValue(s, a, b, o, start, end);
    ValueReadback(s[e..], a - e, b - e, t);
    DropFromSplice(s, e, a, REDACTION, t);
    assert o[e..][a - e..a - e + |REDACTION|] == REDACTION;
  }

  lemma CleanAfterReplace(s: string, a: nat, b: nat, t: string)
    requires NextStep(s) == Replace(a, b) && KeysClean(t)
    requires b == |s| ==> t == ""
    requires b < |s| ==> t != "" && t[0] == s[b]
    ensures KeysClean(s[..a] + REDACTION + t)
  {
    hide NextStep, ValueRedacted, IsSensitiveKey, KeysClean;
    var o := s[..a] + REDACTION + t;
    assert o[a + |REDACTION|..] == t;
    forall start: nat, end: nat |
      IdentifierRun(o, start, end) && start < a + |REDACTION| && IsSensitiveKey(NormalizeKey(o[start..end]))
      ensures ValueRedacted(o[end..])
    {
      KeyBeforeMark(s, a, b, t, start, end);
    }
    CleanFromParts(o, a + |REDACTION|);
  }

  lemma {:induction false} NoRunsClean(s: string)
    requires Lead(NotIdentifier, s) == |s|
    ensures KeysClean(s)
  {
    hide ValueSpan, IsSensitiveKey;
    forall start: nat, end: nat | start < end <= |s|
      ensures !IdentifierRun(s, start, end)
    {
      assert NotIdentifier(s[start]);
    }
  }

  /** Every sensitive key of the output, visited by the scan or not, has no value or the mark. */
  lemma {:induction false} OutputKeysClean(s: string)
    ensures KeysClean(RedactKeyValues(s))
    decreases |s|
  {
    hide RedactKeyValues, NextStep, ValueSpan, IsSensitiveKey;
    Unfold(s);
    match NextStep(s)
    case Finish => NoRunsClean(s);
    case Copy(e) =>
      OutputKeysClean(s[e..]);
      KeepsFirstByte(s[e..]);
      if ValueSpan(s[e..]).Missing? {
        MissingStaysMissing(s[e..]);
      }
      CleanAfterCopy(s, e, RedactKeyValues(s[e..]));
    case Replace(a, b) =>
      OutputKeysClean(s[b..]);
      KeepsFirstByte(s[b..]);
      CleanAfterReplace(s, a, b, RedactKeyValues(s[b..]));
  }

  lemma CleanValueIsMark(s: string, a: nat, b: nat)
    requires KeysClean(s) && NextStep(s) == Replace(a, b)
    ensures s[a..b] == REDACTION && Boundary(s, b)
  {
    hide NextStep, ValueSpan, IsSensitiveKey;
    var e := KeyEnd(s);
    StepReplaces(s, a, b);
    FirstRun(s);
    assert IdentifierRun(s, Lead(NotIdentifier, s), e);
    assert ValueRedacted(s[e..]);
    assert s[a..b] == s[e..][a - e..b - e] == REDACTION;
    assert s[b - 1] == s[a..b][9] == ']';
  }

  /** A clean text passes through unchanged. */
  lemma {:induction false} CleanKeysUnchanged(s: string)
    requires KeysClean(s)
    ensures RedactKeyValues(s) == s
    decreases |s|
  {
    hide *;
    Unfold(s);
    match NextStep(s)
    case Finish =>
    case Copy(e) =>
      StepCopies(s, e);
      CleanSuffix(s, e);
      CleanKeysUnchanged(s[e..]);
      assert s == s[..e] + s[e..];
    case Replace(a, b) =>
      CleanValueIsMark(s, a, b);
      CleanSuffix(s, b);
      CleanKeysUnchanged(s[b..]);
      assert s == s[..a] + s[a..b] + s[b..];
  }

  /** The pass changes exactly the texts in which some sensitive key still has another value. */
  lemma {:induction false} KeysUnchangedIffClean(s: string)
    ensures RedactKeyValues(s) == s <==> KeysClean(s)
  {
    hide RedactKeyValues, KeysClean;
    OutputKeysClean(s);
    if KeysClean(s) {
      CleanKeysUnchanged(s);
    }
  }
}
