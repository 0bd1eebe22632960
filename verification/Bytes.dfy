/**
 * Byte classes shared by the scanners. A text is a Dafny string each of whose
 * characters stands for one byte of the UTF-8 text the program handles.
 */
module Bytes {
  predicate IsSpace(c: char) {
    c == ' ' || c == '\t' || c == '\n' || c == '\U{C}' || c == '\r'
  }

  predicate IsDigit(c: char) {
    '0' <= c <= '9'
  }

  predicate IsUpper(c: char) {
    'A' <= c <= 'Z'
  }

  predicate IsAlphanumeric(c: char) {
    IsDigit(c) || IsUpper(c) || 'a' <= c <= 'z'
  }

  predicate IsHexDigit(c: char) {
    IsDigit(c) || 'A' <= c <= 'F' || 'a' <= c <= 'f'
  }

  function ToLower(c: char): char {
    if IsUpper(c) then (c as int + 32) as char else c
  }

  function Lower(s: string): (r: string)
    ensures |r| == |s|
    ensures forall i | 0 <= i < |s| :: r[i] == ToLower(s[i])
  {
    seq(|s|, i requires 0 <= i < |s| => ToLower(s[i]))
  }

  /** The length of the longest prefix of `s` whose bytes all satisfy `p`. */
  function Lead(p: char -> bool, s: string): (n: nat)
    ensures n <= |s|
    ensures forall i | 0 <= i < n :: p(s[i])
    ensures n < |s| ==> !p(s[n])
  {
    if s == "" || !p(s[0]) then 0 else 1 + Lead(p, s[1..])
  }

  lemma LeadUnique(p: char -> bool, s: string, n: nat)
    requires n <= |s|
    requires forall i | 0 <= i < n :: p(s[i])
    requires n == |s| || !p(s[n])
    ensures Lead(p, s) == n
  {
  }

  lemma LeadSame(p: char -> bool, s: string, o: string)
    requires var n := Lead(p, s); n <= |o| && o[..n] == s[..n] && (n == |o| || !p(o[n]))
    ensures Lead(p, o) == Lead(p, s)
  {
    var n := Lead(p, s);
    forall i | 0 <= i < n ensures p(o[i]) {
      assert o[i] == o[..n][i] == s[..n][i] == s[i];
    }
    LeadUnique(p, o, n);
  }

  lemma LeadDrop(p: char -> bool, s: string, i: nat)
    requires i <= Lead(p, s)
    ensures Lead(p, s[i..]) == Lead(p, s) - i
  {
    forall j | 0 <= j < Lead(p, s) - i ensures p(s[i..][j]) {
      assert s[i..][j] == s[i + j];
    }
    LeadUnique(p, s[i..], Lead(p, s) - i);
  }

  // ------------------------------------------------------------------------ slices

  lemma DropDrop(s: string, n: nat, m: nat)
    requires n + m <= |s|
    ensures s[n..][m..] == s[n + m..]
  {
  }

  lemma DropTake(s: string, n: nat, a: nat, b: nat)
    requires n <= a <= b <= |s|
    ensures s[n..][a - n..b - n] == s[a..b]
  {
  }

  lemma TakeDrop(s: string, n: nat, m: nat)
    requires m <= n <= |s|
    ensures s[..n][m..] == s[m..n] == s[m..][..n - m]
    ensures s[..n][..m] == s[..m]
  {
  }

  lemma DropAt(s: string, n: nat, i: nat)
    requires n <= i < |s|
    ensures s[n..][i - n] == s[i]
  {
  }
}
