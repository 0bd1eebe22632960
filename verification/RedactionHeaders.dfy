/**
 * The header pass: in its output every line with a sensitive header name has
 * the redaction mark as the header's value, and exactly the texts with this
 * property are left alone.
 */
module RedactionHeaders {
  import opened Bytes
  import opened RedactionSpec
  import opened RedactionKeys

  /** A line is not a sensitive header, or is one whose value is the mark. */
  predicate LineClean(line: string) {
    match Header(line)
    case Missing => true
    case Span(_, e) => line[e..] == ": " + REDACTION
  }

  /** Position `i` starts a line; `first` says whether position 0 does. */
  predicate LineStart(s: string, i: nat, first: bool) {
    i <= |s| && if i == 0 then first else s[i - 1] == '\n'
  }

  ghost predicate HeadersClean(s: string, first: bool) {
    forall i: nat | LineStart(s, i, first) :: LineClean(FirstLine(s[i..]))
  }

  /** A line of the text that starts at position `i` is a sensitive header, redacted or not. */
  predicate HeaderAt(s: string, i: nat) {
    LineStart(s, i, true) && Header(FirstLine(s[i..])).Span?
  }

  ghost predicate HasHeader(s: string) {
    exists i: nat :: HeaderAt(s, i)
  }

  // ------------------------------------------------- what a header depends on

  lemma WhiteLocal(a: string, b: string)
    requires var w := WhiteLen(a); 0 < w <= |b| && a[..w] == b[..w]
    ensures WhiteLen(b) == WhiteLen(a)
  {
    var w := WhiteLen(a);
    assert forall i | 0 <= i < w :: a[i] == a[..w][i] == b[..w][i] == b[i];
  }

  lemma SamePrefix(a: string, b: string, k: nat, w: nat)
    requires w <= k < |a| && k < |b| && a[..k] == b[..k]
    ensures a[..w] == b[..w] && a[w..][..k - w] == b[w..][..k - w]
    ensures a[w..][k - w] == a[k] && b[w..][k - w] == b[k]
  {
    TakeDrop(a, k, w);
    TakeDrop(b, k, w);
  }

  lemma TrimStep(s: string)
    ensures var w := WhiteLen(s);
            TrimLen(s) == if w == 0 then 0 else w + TrimLen(s[w..])
  {
    hide WhiteLen;
  }

  lemma NoWhiteLen(s: string)
    requires s != "" && !IsTrimByte(s[0])
    ensures WhiteLen(s) == 0
  {
  }

  lemma {:induction false} TrimLocal(a: string, b: string)
    requires var k := TrimLen(a); k < |a| && k < |b| && a[..k] == b[..k] && !IsTrimByte(a[k]) && !IsTrimByte(b[k])
    ensures TrimLen(b) == TrimLen(a)
    decreases |a|
  {
    var w := WhiteLen(a);
    TrimStep(a);
    TrimStep(b);
    if w == 0 {
      NoWhiteLen(b);
    } else {
      hide TrimLen, WhiteLen, IsTrimByte;
      SamePrefix(a, b, TrimLen(a), w);
      WhiteLocal(a, b);
      TrimLocal(a[w..], b[w..]);
    }
  }

  lemma NameByte(c: char)
    requires 'a' <= ToLower(c) <= 'z' || ToLower(c) == '-'
    ensures IsIdentifier(c) && NormalizeByte(c) == if ToLower(c) == '-' then '_' else ToLower(c)
  {
  }

  lemma HeaderNameBytes(name: string)
    requires IsHeaderName(name)
    ensures name != "" && forall i | 0 <= i < |name| :: IsIdentifier(name[i])
    ensures forall i | 0 <= i < |name| :: NormalizeKey(name)[i] == if Lower(name)[i] == '-' then '_' else Lower(name)[i]
  {
    var lower := Lower(name);
    assert forall i | 0 <= i < |lower| :: 'a' <= lower[i] <= 'z' || lower[i] == '-';
    forall i | 0 <= i < |name|
      ensures IsIdentifier(name[i]) && NormalizeKey(name)[i] == if lower[i] == '-' then '_' else lower[i]
    {
      NameByte(name[i]);
    }
  }

  lemma HeaderNameIsKey(name: string)
    requires IsHeaderName(name)
    ensures IsSensitiveKey(NormalizeKey(name))
  {
    HeaderNameBytes(name);
    var key := NormalizeKey(name);
    if Lower(name) == "cookie" {
      assert key == "cookie" == SENSITIVE_KEYS[1];
    } else if Lower(name) == "set-cookie" {
      assert key == "set_cookie" == SENSITIVE_KEYS[2];
    } else {
      assert key == "authorization" == SENSITIVE_KEYS[0];
    }
    assert key in SENSITIVE_KEYS;
  }

  lemma KeptSlice(s: string, o: string, n: nat, a: nat, b: nat)
    requires KeepsUpTo(s, o, n) && a <= b <= n
    ensures n <= |s| && n <= |o| && o[a..b] == s[a..b]
    ensures forall i | 0 <= i < n :: o[i] == s[i]
  {
    assert o[..n][a..b] == s[..n][a..b];
    forall i | 0 <= i < n ensures o[i] == s[i] {
      assert o[..n][i] == s[..n][i];
    }
  }

  /** A header is decided by the bytes up to and including its colon. */
  lemma HeaderLocal(line: string, o: string)
    requires var h := Header(line); h.Span? && KeepsUpTo(line, o, h.end + 1)
    ensures Header(o) == Header(line)
  {
    hide WhiteLen, TrimLen, IsHeaderName, IsSensitiveKey, Lead, NormalizeKey, Lower;
    var h := Header(line);
    var k, e := h.start, h.end;
    KeptSlice(line, o, e + 1, 0, k);
    KeptSlice(line, o, e + 1, k, e);
    hide KeepsUpTo;
    HeaderNameBytes(line[k..e]);
    assert IsIdentifier(line[k..e][0]);
    assert line[k..e][0] == line[k];
    assert o[..k] == o[0..k] == line[0..k] == line[..k];
    TrimLocal(line, o);
    assert o[k..][..e - k] == o[k..e] == line[k..e] == line[k..][..e - k];
    LeadSame(NotColon, line[k..], o[k..]);
  }

  lemma HeaderColon(line: string)
    requires Header(line).Span?
    ensures line[Header(line).end] == ':'
  {
    var h := Header(line);
    assert line[h.end] == line[h.start..][h.end - h.start];
  }

  /** A header of the first line, seen in the text that starts with the line. */
  lemma HeaderShape(s: string)
    requires Header(FirstLine(s)).Span?
    ensures var h := Header(FirstLine(s));
            h.start < h.end < |s| && s[h.end] == ':' && IsHeaderName(s[h.start..h.end]) &&
            IsIdentifier(s[h.start]) &&
            (forall i | 0 <= i < h.start :: IsTrimByte(s[i])) &&
            (forall i | h.start <= i < h.end :: IsIdentifier(s[i])) &&
            (forall i | 0 <= i <= h.end :: s[i] != '\n')
  {
    hide WhiteLen, TrimLen, IsHeaderName, IsSensitiveKey;
    var line := FirstLine(s);
    var h := Header(line);
    var k, e := h.start, h.end;
    HeaderNameBytes(line[k..e]);
    HeaderColon(line);
    assert forall i | 0 <= i <= e :: s[i] == line[i];
    assert s[k..e] == line[k..e];
    forall i | k <= i < e ensures IsIdentifier(s[i]) {
      assert s[i] == line[k..e][i - k];
    }
  }

  lemma TrimBytesPlain(s: string, k: nat)
    requires k <= |s| && forall i | 0 <= i < k :: IsTrimByte(s[i])
    ensures forall i | 0 <= i < k :: !IsIdentifier(s[i])
    ensures !IsIdentifier(':')
  {
  }

  /** The header name is the first identifier of the text, and a sensitive key. */
  lemma {:induction false} HeaderIsFirstKey(s: string)
    requires Header(FirstLine(s)).Span?
    ensures var h := Header(FirstLine(s));
            Lead(NotIdentifier, s) == h.start && h.start < h.end < |s| && KeyEnd(s) == h.end &&
            IsSensitiveKey(NormalizeKey(s[h.start..h.end]))
  {
    hide Header, FirstLine, IsHeaderName, IsSensitiveKey;
    HeaderShape(s);
    var h := Header(FirstLine(s));
    var k, e := h.start, h.end;
    HeaderNameIsKey(s[k..e]);
    hide IsIdentifier, Lead, KeyEnd;
    assert !IsIdentifier(s[e]) && forall i | 0 <= i < k :: !IsIdentifier(s[i]) by {
      TrimBytesPlain(s, k);
    }
    FirstKeyAt(s, k, e);
  }

  /** Two texts that agree up to the colon of a header in the first one share the header. */
  lemma HeaderShared(s: string, o: string)
    requires var h := Header(FirstLine(s)); h.Span? && KeepsUpTo(s, o, h.end + 1)
    ensures Header(FirstLine(o)) == Header(FirstLine(s))
  {
    hide Header;
    var n := Header(FirstLine(s)).end + 1;
    HeaderShape(s);
    assert forall i | 0 <= i < n :: o[i] == o[..n][i] == s[..n][i] == s[i];
    var m := Lead(NotNewline, o);
    assert n <= m;
    assert FirstLine(o)[..n] == o[..n] == s[..n] == FirstLine(s)[..n];
    HeaderLocal(FirstLine(s), FirstLine(o));
  }

  // ------------------------------------------------------------------ the pass

  lemma RedactedLineClean(line: string)
    requires '\n' !in line
    ensures LineClean(RedactLine(line)) && '\n' !in RedactLine(line)
  {
    hide Header;
    match Header(line)
    case Missing =>
    case Span(k, e) =>
      var o := line[..e] + ": " + REDACTION;
      HeaderColon(line);
      assert o[..e + 1] == line[..e + 1];
      HeaderLocal(line, o);
      assert o[e..] == ": " + REDACTION;
  }

  lemma CleanLineUnchanged(line: string)
    requires LineClean(line)
    ensures RedactLine(line) == line
  {
    hide Header;
  }

  lemma FirstLineOf(line: string, rest: string)
    requires '\n' !in line && (rest == "" || rest[0] == '\n')
    ensures FirstLine(line + rest) == line
  {
    assert forall i | 0 <= i < |line| :: line[i] in line;
    LeadUnique(NotNewline, line + rest, |line|);
  }

  lemma CleanFromLines(line: string, rest: string)
    requires '\n' !in line && LineClean(line) && HeadersClean(rest, true)
    ensures HeadersClean(line + "\n" + rest, true)
  {
    hide LineClean;
    var s := line + "\n" + rest;
    assert forall k | 0 <= k < |line| :: s[k] == line[k] && line[k] in line;
    forall i: nat | LineStart(s, i, true) ensures LineClean(FirstLine(s[i..])) {
      if i == 0 {
        assert s == line + ("\n" + rest);
        FirstLineOf(line, "\n" + rest);
        assert s[0..] == s;
      } else {
        assert |line| < i;
        var j := i - (|line| + 1);
        assert s[i..] == rest[j..];
        assert LineStart(rest, j, true);
      }
    }
  }

  lemma SingleLineClean(line: string)
    requires '\n' !in line && LineClean(line)
    ensures HeadersClean(line, true)
  {
    hide LineClean;
    FirstLineOf(line, "");
    assert line + "" == line && line[0..] == line;
    assert forall i | 0 <= i < |line| :: line[i] in line;
    assert forall i: nat | LineStart(line, i, true) :: i == 0;
  }

  /** Every sensitive header line of the output has the mark as its value. */
  lemma {:induction false} OutputHeadersClean(s: string)
    ensures HeadersClean(RedactHeaders(s), true)
  {
    hide RedactLine, HeadersClean;
    var n := Lead(NotNewline, s);
    RedactedLineClean(s[..n]);
    if n == |s| {
      assert s[..n] == s;
      SingleLineClean(RedactLine(s));
    } else {
      OutputHeadersClean(s[n + 1..]);
      CleanFromLines(RedactLine(s[..n]), RedactHeaders(s[n + 1..]));
    }
  }

  lemma CleanAfterLine(s: string, n: nat)
    requires n < |s| && s[n] == '\n' && HeadersClean(s, true)
    ensures HeadersClean(s[n + 1..], true)
  {
    hide LineClean;
    var rest := s[n + 1..];
    forall i: nat | LineStart(rest, i, true) ensures LineClean(FirstLine(rest[i..])) {
      assert rest[i..] == s[n + 1 + i..];
      assert 0 < i ==> rest[i - 1] == s[n + i];
      assert LineStart(s, n + 1 + i, true);
    }
  }

  lemma {:induction false} CleanHeadersUnchanged(s: string)
    requires HeadersClean(s, true)
    ensures RedactHeaders(s) == s
  {
    hide RedactLine, LineClean;
    var n := Lead(NotNewline, s);
    assert LineStart(s, 0, true) && s[0..] == s;
    CleanLineUnchanged(s[..n]);
    if n == |s| {
      assert s[..n] == s;
    } else {
      CleanAfterLine(s, n);
      CleanHeadersUnchanged(s[n + 1..]);
      assert s == s[..n] + "\n" + s[n + 1..];
    }
  }

  lemma {:induction false} HeadersUnchangedIffClean(s: string)
    ensures RedactHeaders(s) == s <==> HeadersClean(s, true)
  {
    hide RedactHeaders, HeadersClean;
    OutputHeadersClean(s);
    if HeadersClean(s, true) {
      CleanHeadersUnchanged(s);
    }
  }

  /** A text has a header if its first line is one or the rest has one. */
  lemma {:induction false} HasHeaderByLines(s: string, n: nat)
    requires n == Lead(NotNewline, s)
    ensures HasHeader(s) <==> Header(s[..n]).Span? || (n < |s| && HasHeader(s[n + 1..]))
  {
    hide Header;
    assert LineStart(s, 0, true) && s[0..] == s && FirstLine(s) == s[..n];
    forall i: nat | LineStart(s, i, true) && i > 0
      ensures n < i && s[n + 1..][i - (n + 1)..] == s[i..] && LineStart(s[n + 1..], i - (n + 1), true)
    {
      assert !NotNewline(s[i - 1]);
    }
    if HasHeader(s) && !Header(s[..n]).Span? {
      var i: nat :| HeaderAt(s, i);
      assert HeaderAt(s[n + 1..], i - (n + 1));
    }
    if Header(s[..n]).Span? {
      assert HeaderAt(s, 0);
    }
    if n < |s| && HasHeader(s[n + 1..]) {
      var j: nat :| HeaderAt(s[n + 1..], j);
      assert s[n + 1..][j..] == s[n + 1 + j..];
      assert j > 0 ==> s[n + 1..][j - 1] == s[n + j];
      assert HeaderAt(s, n + 1 + j);
    }
  }

  lemma NoHeaderInNothing()
    ensures Header("").Missing?
  {
  }

  lemma {:induction false} RedactedHeadersEmpty(s: string)
    ensures RedactHeaders(s) == "" <==> s == ""
  {
    hide Header;
    var n := Lead(NotNewline, s);
    assert s[..|s|] == s;
    assert n == |s| && Header(s).Span? ==> |RedactLine(s)| >= |REDACTION|;
    NoHeaderInNothing();
  }
}
