/**
 * What the header pass redacts, told by the text of a line: white space, one of
 * three names, a colon and anything.
 */
module HeaderForms {
  import opened Bytes
  import opened RedactionSpec
  import opened CodePoints
  import F = KeyForms
  import H = RedactionHeaders

  predicate SingleLine(s: string) {
    forall i | 0 <= i < |s| :: s[i] != '\n'
  }

  /** The word is the name in capital or small letters. */
  predicate IgnoringCase(word: string, name: string) {
    |word| == |name| &&
    forall i | 0 <= i < |name| ::
      if F.Capital(word[i]) then word[i] as int + 32 == name[i] as int else word[i] == name[i]
  }

  predicate Named(word: string) {
    IgnoringCase(word, "cookie") || IgnoringCase(word, "set-cookie") || IgnoringCase(word, "authorization")
  }

  /** A header line with one of these names, after white space given as code points. */
  predicate HeaderLine(line: string, white: seq<nat>, name: string, value: string) {
    AllWhite(white) && Named(name) && line == EncodeAll(white) + name + ":" + value
  }

  lemma IgnoringCaseWhen(word: string, name: string)
    ensures IgnoringCase(word, name) <==> Lower(word) == name
  {
    if |word| == |name| {
      forall i | 0 <= i < |name|
        ensures (if F.Capital(word[i]) then word[i] as int + 32 == name[i] as int else word[i] == name[i])
           <==> Lower(word)[i] == name[i]
      {
      }
    }
  }

  lemma NamedWhen(word: string)
    ensures Named(word) <==> IsHeaderName(word)
  {
    hide IgnoringCase, Lower;
    IgnoringCaseWhen(word, "cookie");
    IgnoringCaseWhen(word, "set-cookie");
    IgnoringCaseWhen(word, "authorization");
  }

  lemma NoWhiteBefore(t: string)
    requires t != "" && !IsTrimByte(t[0])
    ensures TrimLen(t) == 0
  {
    H.NoWhiteLen(t);
  }

  lemma NameFirst(name: string)
    requires IsHeaderName(name)
    ensures name != "" && !IsTrimByte(name[0]) && forall i | 0 <= i < |name| :: name[i] != ':' && name[i] != '\n'
  {
    hide IsHeaderName;
    H.HeaderNameBytes(name);
  }

  /** The header of such a line is found. */
  lemma HeaderFound(line: string, white: seq<nat>, name: string, value: string)
    requires HeaderLine(line, white, name, value)
    ensures var k := |EncodeAll(white)|; Header(line) == Span(k, k + |name|)
  {
    hide TrimLen, EncodeAll, IsHeaderName, Named, WhiteSpace, IsTrimByte;
    NamedWhen(name);
    NameFirst(name);
    var w := EncodeAll(white);
    var t := name + ":" + value;
    assert line == w + t;
    TrimsWhite(white, t);
    NoWhiteBefore(t);
    assert line[|w|..] == t;
    LeadUnique(NotColon, t, |name|);
    assert line[|w|..|w| + |name|] == name;
  }

  /** And there is no other. */
  lemma HeaderIsLine(line: string) returns (white: seq<nat>, name: string, value: string)
    requires Header(line).Span?
    ensures HeaderLine(line, white, name, value)
  {
    hide TrimLen, EncodeAll, IsHeaderName, Named, AllWhite, Lead;
    var h := Header(line);
    white := TrimmedIsWhite(line);
    name, value := line[h.start..h.end], line[h.end + 1..];
    NamedWhen(name);
    H.HeaderColon(line);
    assert line == line[..h.start] + name + ":" + value;
  }

  lemma OneLineHeaders(line: string)
    requires SingleLine(line)
    ensures RedactHeaders(line) == RedactLine(line)
  {
    hide RedactLine;
    LeadUnique(NotNewline, line, |line|);
  }

  lemma {:induction false} WhiteSingleLine(white: seq<nat>)
    requires AllWhite(white) && 0xA !in white
    ensures SingleLine(EncodeAll(white))
  {
    if white != [] {
      WhiteSingleLine(white[1..]);
      assert white[0] != 0xA;
      assert SingleLine(Encode(white[0]));
    }
  }

  lemma PartsSingleLine(white: string, name: string, value: string)
    requires SingleLine(white) && SingleLine(value) && forall i | 0 <= i < |name| :: name[i] != '\n'
    ensures SingleLine(white + name + ":" + value)
  {
  }

  /** A header line with one of the three names keeps its white space and name, and gets the mark for its value. */
  lemma NamedHeaderRedacted(line: string, white: seq<nat>, name: string, value: string)
    requires HeaderLine(line, white, name, value) && 0xA !in white && SingleLine(value)
    ensures RedactHeaders(line) == EncodeAll(white) + name + ": [REDACTED]"
    ensures SingleLine(line)
  {
    hide Header, EncodeAll, Named, WhiteSpace, RedactHeaders, SingleLine, Lead;
    HeaderFound(line, white, name, value);
    WhiteSingleLine(white);
    NamedWhen(name);
    NameFirst(name);
    PartsSingleLine(EncodeAll(white), name, value);
    OneLineHeaders(line);
    assert line[..|EncodeAll(white)| + |name|] == EncodeAll(white) + name;
  }

  /** Any other line is kept as it is. */
  lemma OtherLineKept(line: string)
    requires SingleLine(line) && forall white, name, value :: !HeaderLine(line, white, name, value)
    ensures RedactHeaders(line) == line
  {
    hide Header, HeaderLine, RedactHeaders;
    if Header(line).Span? {
      var white, name, value := HeaderIsLine(line);
      assert false;
    }
    OneLineHeaders(line);
  }

  lemma LinesUnfold(s: string)
    ensures var n := Lead(NotNewline, s);
            RedactHeaders(s) == RedactLine(s[..n]) + if n == |s| then "" else "\n" + RedactHeaders(s[n + 1..])
  {
    hide RedactLine;
    assert s[..|s|] == s;
  }

  lemma FirstEnd(a: string, b: string)
    ensures Lead(NotNewline, a + "\n" + b) == Lead(NotNewline, a)
  {
    var n, s := Lead(NotNewline, a), a + "\n" + b;
    assert forall i | 0 <= i < |a| :: s[i] == a[i];
    assert s[|a|] == '\n';
    LeadUnique(NotNewline, s, n);
  }

  lemma CutAt(a: string, b: string, n: nat)
    requires n <= |a|
    ensures (a + "\n" + b)[..n] == a[..n]
    ensures (a + "\n" + b)[n + 1..] == if n == |a| then b else a[n + 1..] + "\n" + b
  {
  }

  /** And each line is treated on its own. */
  lemma {:induction false} LinesApart(a: string, b: string)
    ensures RedactHeaders(a + "\n" + b) == RedactHeaders(a) + "\n" + RedactHeaders(b)
    decreases |a|
  {
    hide RedactLine, RedactHeaders, Lead;
    LinesUnfold(a);
    LinesUnfold(a + "\n" + b);
    FirstEnd(a, b);
    var n := Lead(NotNewline, a);
    CutAt(a, b, n);
    assert a[..|a|] == a;
    if n < |a| {
      LinesApart(a[n + 1..], b);
    }
  }
}
