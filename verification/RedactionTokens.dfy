/**
 * The token pass: no long hexadecimal token and no recovery code survives as a
 * whole token, and exactly the texts without one are left alone.
 */
module RedactionTokens {
  import opened Bytes
  import opened RedactionSpec

  /** A maximal run of token bytes. */
  predicate TokenRun(s: string, start: nat, end: nat) {
    start < end <= |s| &&
    (forall i | start <= i < end :: IsToken(s[i])) &&
    (start == 0 || !IsToken(s[start - 1])) &&
    (end == |s| || !IsToken(s[end]))
  }

  ghost predicate TokensClean(s: string) {
    forall start: nat, end: nat | TokenRun(s, start, end) :: !IsSensitiveToken(s[start..end])
  }

  // ------------------------------------------------------------ unfolding steps

  /** A byte outside tokens is copied. */
  lemma {:induction false} SkipByte(s: string)
    requires s != "" && !IsToken(s[0])
    ensures RedactTokens(s) == s[..1] + RedactTokens(s[1..])
  {
    hide IsSensitiveToken;
  }

  /** The token a text starts with is copied or replaced. */
  function TokenCopy(token: string): string {
    if IsSensitiveToken(token) then REDACTION else token
  }

  lemma {:induction false} TakeToken(s: string, e: nat)
    requires TokenRun(s, 0, e)
    ensures RedactTokens(s) == TokenCopy(s[..e]) + RedactTokens(s[e..])
  {
    hide IsSensitiveToken;
    LeadUnique(IsToken, s, e);
  }

  lemma {:induction false} SkipBytes(x: string, s: string)
    requires forall i | 0 <= i < |x| :: !IsToken(x[i])
    ensures RedactTokens(x + s) == x + RedactTokens(s)
  {
    hide RedactTokens;
    if x == "" {
      assert x + s == s;
    } else {
      SkipByte(x + s);
      assert (x + s)[1..] == x[1..] + s && (x + s)[..1] == x[..1];
      SkipBytes(x[1..], s);
      assert x == x[..1] + x[1..];
    }
  }

  /** A token that is followed by a byte outside tokens, and is not sensitive, is copied. */
  lemma {:induction false} KeepToken(token: string, s: string)
    requires token != "" && !IsSensitiveToken(token)
    requires forall i | 0 <= i < |token| :: IsToken(token[i])
    requires s == "" || !IsToken(s[0])
    ensures RedactTokens(token + s) == token + RedactTokens(s)
  {
    hide RedactTokens, IsSensitiveToken;
    TakeToken(token + s, |token|);
    assert (token + s)[..|token|] == token && (token + s)[|token|..] == s;
  }

  lemma {:induction false} FirstTokenByte(s: string)
    ensures s == "" ==> RedactTokens(s) == ""
    ensures s != "" ==>
              RedactTokens(s) != "" &&
              (RedactTokens(s)[0] == s[0] || (IsToken(s[0]) && RedactTokens(s)[0] == '['))
  {
    hide IsSensitiveToken;
  }

  /** The mark and what follows it. */
  lemma {:induction false} KeepMark(s: string)
    ensures RedactTokens(REDACTION + s) == REDACTION + RedactTokens(s)
  {
    hide RedactTokens;
    SkipBytes("[", "REDACTED" + ("]" + s));
    KeepToken("REDACTED", "]" + s);
    SkipBytes("]", s);
    assert REDACTION + s == "[" + ("REDACTED" + ("]" + s));
    assert REDACTION + RedactTokens(s) == "[" + ("REDACTED" + ("]" + RedactTokens(s)));
  }

  // ------------------------------------------------------- runs and parts of a text

  lemma RunInSuffix(s: string, n: nat, start: nat, end: nat)
    requires TokenRun(s, start, end) && n <= start
    ensures TokenRun(s[n..], start - n, end - n) && s[n..][start - n..end - n] == s[start..end]
  {
    DropTake(s, n, start, end);
  }

  lemma RunFromSuffix(s: string, n: nat, start: nat, end: nat)
    requires n <= |s| && TokenRun(s[n..], start, end)
    requires 0 < start || n == 0 || !IsToken(s[n - 1])
    ensures TokenRun(s, n + start, n + end) && s[n..][start..end] == s[n + start..n + end]
  {
    forall i | n + start <= i < n + end ensures IsToken(s[i]) {
      assert s[i] == s[n..][i - n];
    }
    assert 0 < start ==> s[n + start - 1] == s[n..][start - 1];
    assert n + end < |s| ==> s[n + end] == s[n..][end];
  }

  lemma CleanFromParts(s: string, n: nat)
    requires n <= |s| && TokensClean(s[n..])
    requires forall start: nat, end: nat | TokenRun(s, start, end) && start < n :: !IsSensitiveToken(s[start..end])
    ensures TokensClean(s)
  {
    hide IsSensitiveToken;
    forall start: nat, end: nat | TokenRun(s, start, end) ensures !IsSensitiveToken(s[start..end]) {
      if n <= start {
        RunInSuffix(s, n, start, end);
      }
    }
  }

  lemma CleanSuffix(s: string, n: nat)
    requires n <= |s| && TokensClean(s)
    requires n == |s| || n == 0 || !IsToken(s[n]) || !IsToken(s[n - 1])
    ensures TokensClean(s[n..])
  {
    hide IsSensitiveToken;
    forall start: nat, end: nat | TokenRun(s[n..], start, end) ensures !IsSensitiveToken(s[n..][start..end]) {
      RunFromSuffix(s, n, start, end);
    }
  }

  /** The longest token at the start of a text. */
  lemma FirstRun(s: string) returns (e: nat)
    requires s != "" && IsToken(s[0])
    ensures TokenRun(s, 0, e)
  {
    e := Lead(IsToken, s);
  }

  // ------------------------------------------------------------ the output is clean

  lemma CleanAfterByte(c: string, t: string)
    requires |c| == 1 && !IsToken(c[0]) && TokensClean(t)
    ensures TokensClean(c + t)
  {
    hide IsSensitiveToken;
    assert (c + t)[1..] == t;
    assert (c + t)[0] == c[0];
    CleanFromParts(c + t, 1);
  }

  lemma CleanAfterToken(token: string, t: string)
    requires token != "" && !IsSensitiveToken(token) && TokensClean(t)
    requires forall i | 0 <= i < |token| :: IsToken(token[i])
    requires t == "" || !IsToken(t[0])
    ensures TokensClean(token + t)
  {
    hide IsSensitiveToken;
    var o := token + t;
    assert o[|token|..] == t && o[..|token|] == token;
    forall start: nat, end: nat | TokenRun(o, start, end) && start < |token|
      ensures !IsSensitiveToken(o[start..end])
    {
      assert start == 0;
      assert end == |token|;
    }
    CleanFromParts(o, |token|);
  }

  lemma CleanAfterMark(t: string)
    requires TokensClean(t)
    ensures TokensClean(REDACTION + t)
  {
    hide TokensClean;
    CleanAfterByte("]", t);
    CleanAfterToken("REDACTED", "]" + t);
    CleanAfterByte("[", "REDACTED" + ("]" + t));
    assert REDACTION + t == "[" + ("REDACTED" + ("]" + t));
  }

  /** No maximal token of the output is a long hexadecimal token or a recovery code. */
  lemma {:induction false} OutputTokensClean(s: string)
    ensures TokensClean(RedactTokens(s))
    decreases |s|
  {
    if s == "" {
    } else if !IsToken(s[0]) {
      hide *;
      SkipByte(s);
      OutputTokensClean(s[1..]);
      CleanAfterByte(s[..1], RedactTokens(s[1..]));
    } else {
      var e := FirstRun(s);
      TakeToken(s, e);
      OutputTokensClean(s[e..]);
      FirstTokenByte(s[e..]);
      hide TokensClean, RedactTokens, IsSensitiveToken;
      if IsSensitiveToken(s[..e]) {
        CleanAfterMark(RedactTokens(s[e..]));
      } else {
        CleanAfterToken(s[..e], RedactTokens(s[e..]));
      }
    }
  }

  /** A text with no sensitive token passes through unchanged. */
  lemma {:induction false} CleanTokensUnchanged(s: string)
    requires TokensClean(s)
    ensures RedactTokens(s) == s
    decreases |s|
  {
    hide RedactTokens, IsSensitiveToken;
    if s == "" {
      FirstTokenByte(s);
    } else if !IsToken(s[0]) {
      SkipByte(s);
      CleanSuffix(s, 1);
      CleanTokensUnchanged(s[1..]);
      assert s == s[..1] + s[1..];
    } else {
      var e := FirstRun(s);
      TakeToken(s, e);
      assert s[0..e] == s[..e];
      CleanSuffix(s, e);
      CleanTokensUnchanged(s[e..]);
      assert s == s[..e] + s[e..];
    }
  }

  lemma {:induction false} TokensUnchangedIffClean(s: string)
    ensures RedactTokens(s) == s <==> TokensClean(s)
  {
    hide RedactTokens, TokensClean;
    OutputTokensClean(s);
    if TokensClean(s) {
      CleanTokensUnchanged(s);
    }
  }

  lemma SensitiveTokenNonempty(token: string)
    requires IsSensitiveToken(token)
    ensures 22 <= |token|
  {
  }

  /** The first token of a text that does not reach its end is the first token of any longer text. */
  lemma {:induction false} TakeFirstToken(before: string, rest: string, e: nat)
    requires TokenRun(before, 0, e)
    requires e < |before| || rest == "" || !IsToken(rest[0])
    ensures RedactTokens(before + rest) == TokenCopy(before[..e]) + RedactTokens(before[e..] + rest)
  {
    hide RedactTokens, IsSensitiveToken;
    var s := before + rest;
    assert s[..e] == before[..e] && s[e..] == before[e..] + rest;
    TakeToken(s, e);
  }

  /** A text can be redacted in parts that meet at a byte outside tokens. */
  lemma {:induction false} RedactParts(before: string, rest: string)
    requires before == "" || !IsToken(before[|before| - 1]) || rest == "" || !IsToken(rest[0])
    ensures RedactTokens(before + rest) == RedactTokens(before) + RedactTokens(rest)
    decreases |before|
  {
    hide RedactTokens, IsSensitiveToken;
    if before == "" {
      FirstTokenByte(before);
      assert before + rest == rest;
    } else if !IsToken(before[0]) {
      SkipByte(before + rest);
      SkipByte(before);
      assert (before + rest)[1..] == before[1..] + rest && (before + rest)[..1] == before[..1];
      RedactParts(before[1..], rest);
    } else {
      var e := FirstRun(before);
      TakeFirstToken(before, rest, e);
      TakeToken(before, e);
      RedactParts(before[e..], rest);
    }
  }

  /** A sensitive token between bytes outside tokens is replaced and nothing else moves. */
  lemma {:induction false} SensitiveTokenReplaced(before: string, token: string, after: string)
    requires IsSensitiveToken(token) && forall i | 0 <= i < |token| :: IsToken(token[i])
    requires before == "" || !IsToken(before[|before| - 1])
    requires after == "" || !IsToken(after[0])
    ensures RedactTokens(before + token + after) == RedactTokens(before) + REDACTION + RedactTokens(after)
  {
    hide RedactTokens;
    SensitiveTokenNonempty(token);
    hide IsSensitiveToken;
    RedactParts(before, token + after);
    assert before + token + after == before + (token + after);
    TakeToken(token + after, |token|);
    assert (token + after)[..|token|] == token && (token + after)[|token|..] == after;
  }
}
