/**
 * What each pass of the audit redactor computes, as functions on the part of
 * the text that is still to be scanned.
 */
module RedactionSpec {
  import opened Bytes

  /** A half-open range of byte positions that a scan found, if it found one. */
  datatype Place = Missing | Span(start: nat, end: nat)

  const REDACTION: string := "[REDACTED]"

  const SENSITIVE_KEYS: seq<string> := [
    "authorization",
    "cookie",
    "set_cookie",
    "password",
    "secret",
    "token",
    "session_token",
    "reconnect_token",
    "enrollment_token",
    "sunbolt_agent_enrollment_token",
    "credential_secret",
    "credential_proof",
    "node_credential",
    "node_credentials",
    "recovery_code",
    "recovery_codes",
    "passkey_credential",
    "credential_id",
    "allowed_credential_ids",
    "public_key",
    "challenge",
    "challenge_id",
    "raw_id",
    "attestation_object",
    "client_data_json",
    "authenticator_data",
    "signature",
    "user_handle"
  ]

  // ---------------------------------------------------------------- headers

  predicate NotNewline(c: char) {
    c != '\n'
  }

  predicate NotColon(c: char) {
    c != ':'
  }

  /** Bytes that occur in encodings of white space: ASCII space bytes and all non-ASCII bytes. */
  predicate IsTrimByte(c: char) {
    c == ' ' || '\t' <= c <= '\r' || '\U{80}' <= c
  }

  /** The encoded length of the Unicode White_Space character `s` starts with, or 0. */
  function WhiteLen(s: string): (n: nat)
    ensures n <= 3 && n <= |s|
    ensures forall i | 0 <= i < n :: IsTrimByte(s[i])
  {
    if s == "" then 0
    else if s[0] == ' ' || '\t' <= s[0] <= '\r' then 1
    else if |s| < 2 then 0
    else if s[0] == '\U{C2}' && (s[1] == '\U{85}' || s[1] == '\U{A0}') then 2
    else if |s| < 3 then 0
    else if s[0] == '\U{E1}' && s[1] == '\U{9A}' && s[2] == '\U{80}' then 3
    else if s[0] == '\U{E2}' && s[1] == '\U{80}' &&
            ('\U{80}' <= s[2] <= '\U{8A}' || s[2] == '\U{A8}' || s[2] == '\U{A9}' || s[2] == '\U{AF}') then 3
    else if s[0] == '\U{E2}' && s[1] == '\U{81}' && s[2] == '\U{9F}' then 3
    else if s[0] == '\U{E3}' && s[1] == '\U{80}' && s[2] == '\U{80}' then 3
    else 0
  }

  /** How many bytes trimming leading white space removes from `s`. */
  function TrimLen(s: string): (n: nat)
    ensures n <= |s|
    ensures forall i | 0 <= i < n :: IsTrimByte(s[i])
  {
    var w := WhiteLen(s);
    if w == 0 then 0 else w + TrimLen(s[w..])
  }

  predicate IsHeaderName(name: string) {
    var lower := Lower(name);
    lower == "cookie" || lower == "set-cookie" || lower == "authorization"
  }

  /** Where the name of a sensitive header starts and ends in a line, if it is one. */
  function Header(line: string): (h: Place)
    ensures h.Span? ==> h.start <= h.end < |line|
  {
    var start := TrimLen(line);
    var end := start + Lead(NotColon, line[start..]);
    if end < |line| && IsHeaderName(line[start..end]) then Span(start, end) else Missing
  }

  function RedactLine(line: string): string {
    match Header(line)
    case Missing => line
    case Span(_, end) => line[..end] + ": " + REDACTION
  }

  /** The first line of `s`, without its newline. */
  function FirstLine(s: string): string {
    s[..Lead(NotNewline, s)]
  }

  function RedactHeaders(s: string): string {
    var n := Lead(NotNewline, s);
    if n == |s| then RedactLine(s)
    else RedactLine(s[..n]) + "\n" + RedactHeaders(s[n + 1..])
  }

  // ------------------------------------------------------- keys and values

  predicate IsIdentifier(c: char) {
    IsAlphanumeric(c) || c == '_' || c == '-'
  }

  predicate NotIdentifier(c: char) {
    !IsIdentifier(c)
  }

  function NormalizeByte(c: char): char {
    if c == '-' then '_' else ToLower(c)
  }

  function NormalizeKey(key: string): (r: string)
    ensures |r| == |key|
    ensures forall i | 0 <= i < |key| :: r[i] == NormalizeByte(key[i])
  {
    seq(|key|, i requires 0 <= i < |key| => NormalizeByte(key[i]))
  }

  predicate EndsWith(s: string, suffix: string) {
    |suffix| <= |s| && s[|s| - |suffix|..] == suffix
  }

  predicate IsSensitiveKey(key: string) {
    exists sensitive | sensitive in SENSITIVE_KEYS :: key == sensitive || EndsWith(key, "_" + sensitive)
  }

  predicate IsQuote(c: char) {
    c == '"' || c == '\''
  }

  predicate IsDelimiter(c: char) {
    c == ':' || c == '='
  }

  predicate IsBare(c: char) {
    c != ',' && c != ';' && c != '\n' && c != '\r' && !IsSpace(c)
  }

  /** The position after a key where its delimiter would have to be. */
  function DelimiterProbe(u: string): (n: nat)
    ensures n <= |u|
  {
    var a := Lead(IsSpace, u);
    if a < |u| && u[a] == '"' then a + 1 + Lead(IsSpace, u[a + 1..]) else a
  }

  function Delimiter(u: string): (d: Place)
    ensures d.Span? ==> d.end == d.start + 1 <= |u| && IsDelimiter(u[d.start])
  {
    var n := DelimiterProbe(u);
    if n < |u| && IsDelimiter(u[n]) then Span(n, n + 1) else Missing
  }

  /** The length of a quoted value up to its closing quote or the end; `s` follows the opening quote. */
  function QuotedLen(quote: char, s: string): (n: nat)
    ensures n <= |s|
    ensures n < |s| ==> s[n] == quote
  {
    if s == "" then 0
    else if s[0] == '\\' then (if |s| < 2 then 1 else 2 + QuotedLen(quote, s[2..]))
    else if s[0] == quote then 0
    else 1 + QuotedLen(quote, s[1..])
  }

  const DEPTH_LIMIT: nat := 0x1_0000_0000

  /** One more level of nesting, in a 32-bit counter that wraps around. */
  function Deeper(depth: nat): nat {
    if depth + 1 == DEPTH_LIMIT then 0 else depth + 1
  }

  /** The length of a bracketed value. */
  function BalancedLen(open: char, close: char, depth: nat, s: string): (n: nat)
    ensures n <= |s|
    ensures n == |s| || (0 < n && s[n - 1] == close)
    decreases |s|
  {
    if s == "" then 0
    else if s[0] == open then 1 + BalancedLen(open, close, Deeper(depth), s[1..])
    else if s[0] == close then
      if depth <= 1 then 1 else 1 + BalancedLen(open, close, depth - 1, s[1..])
    else if IsQuote(s[0]) then
      var n := 2 + QuotedLen(s[0], s[1..]);
      if |s| <= n then |s| else n + BalancedLen(open, close, depth, s[n..])
    else 1 + BalancedLen(open, close, depth, s[1..])
  }

  /** Where the value that follows a delimiter starts and ends. */
  function ValueBounds(v: string): (r: Place)
    ensures r.Span? ==> r.start <= r.end <= |v| && 0 < |v|
  {
    var a := Lead(IsSpace, v);
    if a == |v| then Missing
    else if IsQuote(v[a]) then Span(a + 1, a + 1 + QuotedLen(v[a], v[a + 1..]))
    else if v[a] == '[' then Span(a, a + BalancedLen('[', ']', 0, v[a..]))
    else if v[a] == '{' then Span(a, a + BalancedLen('{', '}', 0, v[a..]))
    else Span(a, a + Lead(IsBare, v[a..]))
  }

  /** Where the value of a key lies in the text `u` that follows the key. */
  function ValueSpan(u: string): (r: Place)
    ensures r.Span? ==> 0 < r.start <= r.end <= |u|
  {
    match Delimiter(u)
    case Missing => Missing
    case Span(_, d) =>
      match ValueBounds(u[d..])
      case Missing => Missing
      case Span(a, b) => Span(d + a, d + b)
  }

  /** What the scanner does with the next identifier of the text. */
  datatype Step = Finish | Copy(upTo: nat) | Replace(start: nat, end: nat)

  /** The step for a key that ends at position `e` and is followed by the text `u`. */
  function StepAfter(key: string, u: string, e: nat): (step: Step)
    ensures step == Copy(e) || (step.Replace? && e < step.start <= step.end <= e + |u|)
  {
    if !IsSensitiveKey(NormalizeKey(key)) then Copy(e)
    else
      match ValueSpan(u)
      case Missing => Copy(e)
      case Span(a, b) => Replace(e + a, e + b)
  }

  /** Where the first identifier of `s` ends. */
  function KeyEnd(s: string): (e: nat)
    ensures Lead(NotIdentifier, s) <= e <= |s|
    ensures Lead(NotIdentifier, s) < |s| ==> Lead(NotIdentifier, s) < e
  {
    var k := Lead(NotIdentifier, s);
    k + Lead(IsIdentifier, s[k..])
  }

  function NextStep(s: string): (step: Step)
    ensures step.Finish? <==> Lead(NotIdentifier, s) == |s|
    ensures step.Copy? ==> Lead(NotIdentifier, s) < step.upTo <= |s|
    ensures step.Replace? ==> Lead(NotIdentifier, s) < step.start <= step.end <= |s|
  {
    var k, e := Lead(NotIdentifier, s), KeyEnd(s);
    if k == |s| then Finish else StepAfter(s[k..e], s[e..], e)
  }

  function RedactKeyValues(s: string): string
    decreases |s|
  {
    match NextStep(s)
    case Finish => s
    case Copy(e) => s[..e] + RedactKeyValues(s[e..])
    case Replace(a, b) => s[..a] + REDACTION + RedactKeyValues(s[b..])
  }

  // ---------------------------------------------------------------- tokens

  predicate IsToken(c: char) {
    IsAlphanumeric(c) || c == '-' || c == '_' || c == '.' || c == ':'
  }

  predicate NotToken(c: char) {
    !IsToken(c)
  }

  predicate IsLongHex(s: string) {
    32 <= |s| && forall i | 0 <= i < |s| :: IsHexDigit(s[i])
  }

  predicate IsRecoveryCode(s: string) {
    |s| == 22 && s[8] == '-' && s[15] == '-' &&
    forall i | 0 <= i < 22 :: i == 8 || i == 15 || IsHexDigit(s[i])
  }

  predicate IsSensitiveToken(s: string) {
    IsLongHex(s) || IsRecoveryCode(s)
  }

  function RedactTokens(s: string): string
    decreases |s|
  {
    if s == "" then ""
    else if !IsToken(s[0]) then s[..1] + RedactTokens(s[1..])
    else
      var e := Lead(IsToken, s);
      (if IsSensitiveToken(s[..e]) then REDACTION else s[..e]) + RedactTokens(s[e..])
  }

  // ----------------------------------------------------------- composition

  function Redact(text: string): string {
    RedactTokens(RedactKeyValues(RedactHeaders(text)))
  }
}
