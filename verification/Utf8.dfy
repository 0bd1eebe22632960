/**
 * Well-formed UTF-8 (section 3 and the syntax of section 4 of RFC 3629) and
 * the character boundaries at which a Rust string may be sliced.
 */
module Utf8 {
  import opened Bytes

  predicate IsAscii(c: char) {
    c < '\U{80}'
  }

  predicate IsContinuation(c: char) {
    '\U{80}' <= c <= '\U{BF}'
  }

  /** The length of the well-formed character that `s` starts with, or 0. */
  function CharLen(s: string): (n: nat)
    ensures n <= 4 && n <= |s|
    ensures forall i | 0 < i < n :: IsContinuation(s[i])
    ensures 0 < n ==> !IsContinuation(s[0])
    ensures s != "" && IsAscii(s[0]) ==> n == 1
  {
    if s == "" then 0
    else if IsAscii(s[0]) then 1
    else if |s| < 2 || !IsContinuation(s[1]) then 0
    else if '\U{C2}' <= s[0] <= '\U{DF}' then 2
    else if |s| < 3 || !IsContinuation(s[2]) then 0
    else if s[0] == '\U{E0}' then (if '\U{A0}' <= s[1] then 3 else 0)
    else if s[0] == '\U{ED}' then (if s[1] <= '\U{9F}' then 3 else 0)
    else if '\U{E1}' <= s[0] <= '\U{EF}' then 3
    else if |s| < 4 || !IsContinuation(s[3]) then 0
    else if s[0] == '\U{F0}' then (if '\U{90}' <= s[1] then 4 else 0)
    else if '\U{F1}' <= s[0] <= '\U{F3}' then 4
    else if s[0] == '\U{F4}' then (if s[1] <= '\U{8F}' then 4 else 0)
    else 0
  }

  predicate ValidUtf8(s: string) {
    s == "" || (0 < CharLen(s) && ValidUtf8(s[CharLen(s)..]))
  }

  predicate IsBoundary(s: string, i: nat) {
    i == 0 || i == |s| || (i < |s| && !IsContinuation(s[i]))
  }

  lemma CharLenLocal(s: string, t: string)
    requires 0 < CharLen(s) && CharLen(s) <= |t| && t[..CharLen(s)] == s[..CharLen(s)]
    ensures CharLen(t) == CharLen(s)
  {
    var n := CharLen(s);
    assert forall i | 0 <= i < n :: t[i] == t[..n][i] == s[..n][i] == s[i];
  }

  lemma {:induction false} ConcatValid(a: string, b: string)
    requires ValidUtf8(a) && ValidUtf8(b)
    ensures ValidUtf8(a + b)
  {
    hide CharLen;
    if a == "" {
      assert a + b == b;
    } else {
      var n := CharLen(a);
      assert (a + b)[..n] == a[..n];
      CharLenLocal(a, a + b);
      assert (a + b)[n..] == a[n..] + b;
      ConcatValid(a[n..], b);
    }
  }

  lemma FirstChar(s: string)
    requires s != ""
    ensures ValidUtf8(s) <==> 0 < CharLen(s) && ValidUtf8(s[CharLen(s)..])
  {
    hide CharLen;
  }

  /** A boundary after the first character is a boundary of the rest. */
  lemma BoundaryOfRest(s: string, i: nat)
    requires 0 < i <= |s| && IsBoundary(s, i) && 0 < CharLen(s)
    ensures CharLen(s) <= i && IsBoundary(s[CharLen(s)..], i - CharLen(s))
  {
    hide CharLen;
    var n := CharLen(s);
    if i < |s| && n <= i {
      DropAt(s, n, i);
    }
  }

  lemma CutAtStart(s: string)
    requires ValidUtf8(s)
    ensures ValidUtf8(s[..0]) && ValidUtf8(s[0..])
  {
    assert s[0..] == s;
  }

  /** Cutting a well-formed text at a boundary leaves two well-formed texts. */
  lemma {:induction false} BoundarySplits(s: string, i: nat)
    requires ValidUtf8(s) && i <= |s| && IsBoundary(s, i)
    ensures ValidUtf8(s[..i]) && ValidUtf8(s[i..])
    decreases |s|
  {
    hide CharLen, ValidUtf8, IsBoundary;
    if i == 0 {
      CutAtStart(s);
    } else {
      FirstChar(s);
      FirstChar(s[..i]);
      BoundaryOfRest(s, i);
      var n := CharLen(s);
      BoundarySplits(s[n..], i - n);
      DropDrop(s, n, i - n);
      TakeDrop(s, i, n);
      CharLenLocal(s, s[..i]);
    }
  }

  /** Next to an ASCII byte, or at the end, there is always a boundary. */
  predicate AsciiEdge(s: string, i: nat) {
    i <= |s| && (i == 0 || i == |s| || IsAscii(s[i]) || IsAscii(s[i - 1]))
  }

  lemma {:induction false} EdgeIsBoundary(s: string, i: nat)
    requires ValidUtf8(s) && AsciiEdge(s, i)
    ensures IsBoundary(s, i)
  {
    hide CharLen;
    if 0 < i < |s| && !IsAscii(s[i]) {
      BoundarySplits(s, i - 1);
      var t := s[i - 1..];
      assert CharLen(t) == 1;
      assert t[1] == s[i];
      assert ValidUtf8(t[1..]) && 0 < CharLen(t[1..]);
      assert t[1..][0] == t[1];
    }
  }

  lemma {:induction false} SliceValid(s: string, start: nat, end: nat)
    requires start <= end <= |s| && ValidUtf8(s) && IsBoundary(s, start) && IsBoundary(s, end)
    ensures ValidUtf8(s[start..end])
  {
    hide ValidUtf8;
    BoundarySplits(s, end);
    assert start < end ==> s[..end][start] == s[start];
    BoundarySplits(s[..end], start);
    assert s[start..end] == s[..end][start..];
  }

  /** A slice of a Rust string, which panics anywhere but at boundaries. */
  function Slice(s: string, start: nat, end: nat): (r: string)
    requires start <= end <= |s| && ValidUtf8(s) && IsBoundary(s, start) && IsBoundary(s, end)
    ensures r == s[start..end] && ValidUtf8(r)
  {
    SliceValid(s, start, end);
    s[start..end]
  }
}
