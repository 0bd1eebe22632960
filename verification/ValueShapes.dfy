/**
 * What the value scans of the redactor compute, told by a plain reading of the
 * text byte by byte: a byte is outside quotes, inside them, or escaped. The
 * scans jump over escapes and quoted parts; the reading does not.
 */
module ValueShapes {
  import opened RedactionSpec
  import opened Bytes
  import K = KeyScanner
  import F = KeyForms

  datatype Reading = Outside | Inside(quote: char) | Escaped(quote: char)

  function ReadByte(r: Reading, c: char): Reading {
    match r
    case Outside => if IsQuote(c) then Inside(c) else Outside
    case Inside(quote) => if c == '\\' then Escaped(quote) else if c == quote then Outside else r
    case Escaped(quote) => Inside(quote)
  }

  function Read(r: Reading, s: string): Reading
    decreases |s|
  {
    if s == "" then r else Read(ReadByte(r, s[0]), s[1..])
  }

  /** Opening less closing brackets, counting only those outside quotes. */
  function Balance(r: Reading, open: char, close: char, s: string): int
    decreases |s|
  {
    if s == "" then 0
    else
      (if r != Outside then 0 else if s[0] == open then 1 else if s[0] == close then -1 else 0)
      + Balance(ReadByte(r, s[0]), open, close, s[1..])
  }

  lemma TakeFirst(s: string, i: nat)
    requires 0 < i <= |s|
    ensures s[..i] != "" && s[..i][0] == s[0] && s[..i][1..] == s[1..][..i - 1]
  {
  }

  lemma {:induction false} ReadOne(r: Reading, s: string)
    requires s != ""
    ensures Read(r, s[..0]) == r && Read(r, s[..1]) == ReadByte(r, s[0])
  {
    assert s[..1] == [s[0]];
    assert [s[0]][1..] == "";
  }

  /** A quoted value of length `n` ends where the reading is first outside quotes again, or never is. */
  predicate FirstReturn(quote: char, s: string, n: nat)
    requires n <= |s|
  {
    (forall i | 0 <= i <= n :: Read(Inside(quote), s[..i]) != Outside) &&
    (n < |s| ==> Read(Inside(quote), s[..n + 1]) == Outside)
  }

  lemma ReadEscape(quote: char, s: string, i: nat)
    requires 2 <= i <= |s| && s[0] == '\\'
    ensures Read(Inside(quote), s[..i]) == Read(Inside(quote), s[2..][..i - 2])
  {
    TakeFirst(s, i);
    TakeFirst(s[1..], i - 1);
    assert s[1..][1..] == s[2..];
  }

  lemma ReturnAfterEscape(quote: char, s: string, n: nat)
    requires IsQuote(quote) && |s| >= 2 && s[0] == '\\' && n <= |s| - 2 && FirstReturn(quote, s[2..], n)
    ensures FirstReturn(quote, s, n + 2)
  {
    hide Read;
    ReadOne(Inside(quote), s);
    forall i | 2 <= i <= n + 2 ensures Read(Inside(quote), s[..i]) != Outside {
      var j := i - 2;
      ReadEscape(quote, s, i);
      assert Read(Inside(quote), s[2..][..j]) != Outside;
    }
    if n + 2 < |s| {
      ReadEscape(quote, s, n + 3);
    }
  }

  lemma ReadPlain(quote: char, s: string, i: nat)
    requires IsQuote(quote) && 1 <= i <= |s| && s[0] != '\\' && s[0] != quote
    ensures Read(Inside(quote), s[..i]) == Read(Inside(quote), s[1..][..i - 1])
  {
    TakeFirst(s, i);
  }

  lemma ReturnAfterByte(quote: char, s: string, n: nat)
    requires IsQuote(quote) && s != "" && s[0] != '\\' && s[0] != quote && n <= |s| - 1 && FirstReturn(quote, s[1..], n)
    ensures FirstReturn(quote, s, n + 1)
  {
    hide Read;
    ReadOne(Inside(quote), s);
    forall i | 1 <= i <= n + 1 ensures Read(Inside(quote), s[..i]) != Outside {
      var j := i - 1;
      ReadPlain(quote, s, i);
      assert Read(Inside(quote), s[1..][..j]) != Outside;
    }
    if n + 1 < |s| {
      ReadPlain(quote, s, n + 2);
    }
  }

  lemma ReturnAtOnce(quote: char, s: string)
    requires IsQuote(quote) && s != "" ==> s[0] == quote || (s[0] == '\\' && |s| == 1)
    ensures IsQuote(quote) ==> FirstReturn(quote, s, QuotedLen(quote, s))
  {
    if s == "" {
      assert s[..0] == "";
    } else {
      ReadOne(Inside(quote), s);
    }
  }

  /** The scan that jumps over escapes ends a quoted value where the byte-by-byte reading does. */
  lemma {:induction false} QuotedEndsAtFirstReturn(quote: char, s: string)
    requires IsQuote(quote)
    ensures FirstReturn(quote, s, QuotedLen(quote, s))
    decreases |s|
  {
    hide FirstReturn;
    if s == "" || s[0] == quote || (s[0] == '\\' && |s| == 1) {
      ReturnAtOnce(quote, s);
    } else if s[0] == '\\' {
      QuotedEndsAtFirstReturn(quote, s[2..]);
      ReturnAfterEscape(quote, s, QuotedLen(quote, s[2..]));
    } else {
      QuotedEndsAtFirstReturn(quote, s[1..]);
      ReturnAfterByte(quote, s, QuotedLen(quote, s[1..]));
    }
  }

  lemma {:induction false} ReadOn(r: Reading, a: string, b: string)
    ensures Read(r, a + b) == Read(Read(r, a), b)
    decreases |a|
  {
    if a == "" {
      assert a + b == b;
    } else {
      assert (a + b)[1..] == a[1..] + b;
      ReadOn(ReadByte(r, a[0]), a[1..], b);
    }
  }

  lemma {:induction false} BalanceOn(r: Reading, open: char, close: char, a: string, b: string)
    ensures Balance(r, open, close, a + b) == Balance(r, open, close, a) + Balance(Read(r, a), open, close, b)
    decreases |a|
  {
    if a == "" {
      assert a + b == b;
    } else {
      assert (a + b)[1..] == a[1..] + b;
      BalanceOn(ReadByte(r, a[0]), open, close, a[1..], b);
    }
  }

  /** Nothing counts while the reading stays inside quotes. */
  lemma {:induction false} QuotedCountsNothing(r: Reading, open: char, close: char, s: string)
    requires forall i | 0 <= i < |s| :: Read(r, s[..i]) != Outside
    ensures Balance(r, open, close, s) == 0
    decreases |s|
  {
    if s != "" {
      ReadOne(r, s);
      forall i | 0 <= i < |s| - 1 ensures Read(ReadByte(r, s[0]), s[1..][..i]) != Outside {
        TakeFirst(s, i + 1);
        assert Read(r, s[..i + 1]) != Outside;
      }
      QuotedCountsNothing(ReadByte(r, s[0]), open, close, s[1..]);
    }
  }

  /** A quoted part, from its opening quote to after its closing one, counts for nothing. */
  lemma {:induction false} QuotedPart(open: char, close: char, s: string, i: nat)
    requires s != "" && IsQuote(s[0]) && s[0] != open && s[0] != close
    requires i <= |s| && i <= 2 + QuotedLen(s[0], s[1..])
    ensures Balance(Outside, open, close, s[..i]) == 0
    ensures i == 2 + QuotedLen(s[0], s[1..]) ==> Read(Outside, s[..i]) == Outside
  {
    if i == 0 {
      assert s[..0] == "";
    } else {
      var t := s[1..][..i - 1];
      TakeFirst(s, i);
      QuotedEndsAtFirstReturn(s[0], s[1..]);
      forall k | 0 <= k < |t| ensures Read(Inside(s[0]), t[..k]) != Outside {
        assert t[..k] == s[1..][..k];
      }
      QuotedCountsNothing(Inside(s[0]), open, close, t);
    }
  }

  predicate Brackets(open: char, close: char) {
    (open == '[' && close == ']') || (open == '{' && close == '}')
  }

  /** How many brackets are open after the first `n` bytes, if `depth` are open before them. */
  function Level(open: char, close: char, depth: int, s: string, n: nat): int
    requires n <= |s|
  {
    depth + Balance(Outside, open, close, s[..n])
  }

  /** All levels before position `n` are below the number at which the scan's 32-bit counter wraps around. */
  predicate Shallow(open: char, close: char, depth: int, s: string, n: nat)
    requires n <= |s|
  {
    forall i | 0 <= i < n :: Level(open, close, depth, s, i) < 0x1_0000_0000
  }

  /**
   * After `n` bytes at the latest the brackets balance or the text ends; and
   * if it does not end there, they balance exactly if they were shallow.
   */
  predicate Ends(open: char, close: char, depth: int, s: string, n: nat)
    requires n <= |s|
  {
    (forall i | 0 <= i < n :: Level(open, close, depth, s, i) > 0) &&
    (n < |s| ==> (Level(open, close, depth, s, n) == 0 <==> Shallow(open, close, depth, s, n)))
  }

  /** The first byte, where it is not a quote, in the level and in the reading. */
  lemma FirstByte(open: char, close: char, depth: int, s: string)
    requires s != "" && !IsQuote(s[0])
    ensures Read(Outside, s[..1]) == Outside
    ensures Level(open, close, depth, s, 1) == depth + if s[0] == open then 1 else if s[0] == close then -1 else 0
    ensures forall i | 0 <= i < 1 :: Level(open, close, depth, s, i) == depth
  {
    ReadOne(Outside, s);
    assert s[..0] == "" && s[..1] == [s[0]] && [s[0]][1..] == "";
    assert Balance(Outside, open, close, [s[0]]) == if s[0] == open then 1 else if s[0] == close then -1 else 0;
  }

  lemma LevelLater(open: char, close: char, depth: int, s: string, k: nat, i: nat)
    requires k <= i <= |s| && Read(Outside, s[..k]) == Outside
    ensures Level(open, close, depth, s, i) == Level(open, close, Level(open, close, depth, s, k), s[k..], i - k)
  {
    assert s[..i] == s[..k] + s[k..][..i - k];
    BalanceOn(Outside, open, close, s[..k], s[k..][..i - k]);
  }

  /** A scan that goes on after `k` bytes ends where the scan of the rest does. */
  lemma EndsLater(open: char, close: char, depth: int, s: string, k: nat, rest: int, m: nat)
    requires k <= |s| && m <= |s| - k && Read(Outside, s[..k]) == Outside && rest == Level(open, close, depth, s, k)
    requires forall i | 0 <= i < k :: Level(open, close, depth, s, i) > 0
    requires rest < DEPTH_LIMIT ==> Shallow(open, close, depth, s, k)
    requires Ends(open, close, rest, s[k..], m) && (m > 0 || m == |s| - k)
    ensures Ends(open, close, depth, s, k + m)
  {
    forall i | k <= i <= |s|
      ensures Level(open, close, depth, s, i) == Level(open, close, rest, s[k..], i - k)
    {
      LevelLater(open, close, depth, s, k, i);
    }
    hide Level;
    forall i | 0 <= i < k + m ensures Level(open, close, depth, s, i) > 0 {
      assert i >= k ==> Level(open, close, rest, s[k..], i - k) > 0;
    }
    if k + m < |s| {
      assert rest == Level(open, close, rest, s[k..], 0);
      forall i | 0 <= i < m
        ensures Level(open, close, rest, s[k..], i) == Level(open, close, depth, s, k + i)
      {
      }
    }
  }

  /** A quoted part leaves the level as it is. */
  lemma LevelInQuotes(open: char, close: char, depth: int, s: string)
    requires s != "" && IsQuote(s[0]) && s[0] != open && s[0] != close
    ensures var k := 2 + QuotedLen(s[0], s[1..]);
            (forall i: nat | i <= k && i <= |s| :: Level(open, close, depth, s, i) == depth) &&
            (k <= |s| ==> Read(Outside, s[..k]) == Outside)
  {
    hide QuotedLen, Balance, Read;
    forall i: nat | i <= |s| && i <= 2 + QuotedLen(s[0], s[1..]) ensures Level(open, close, depth, s, i) == depth {
      QuotedPart(open, close, s, i);
    }
    if 2 + QuotedLen(s[0], s[1..]) <= |s| {
      QuotedPart(open, close, s, 2 + QuotedLen(s[0], s[1..]));
    }
  }

  lemma Wraps(depth: nat)
    requires depth > 0
    ensures Deeper(depth % DEPTH_LIMIT) == (depth + 1) % DEPTH_LIMIT
    ensures depth % DEPTH_LIMIT > 1 ==>
              depth > 1 && (depth - 1) % DEPTH_LIMIT == depth % DEPTH_LIMIT - 1 &&
              (depth - 1 < DEPTH_LIMIT ==> depth < DEPTH_LIMIT)
    ensures depth % DEPTH_LIMIT <= 1 ==> (depth - 1 == 0 <==> depth < DEPTH_LIMIT)
  {
  }

  lemma {:induction false} EndsWithText(open: char, close: char, depth: nat, d: nat)
    ensures Ends(open, close, depth, "", BalancedLen(open, close, d, ""))
  {
  }

  lemma EndsAfterQuotes(open: char, close: char, depth: nat, s: string, d: nat)
    requires s != "" && IsQuote(s[0]) && s[0] != open && s[0] != close && depth > 0
    ensures |s| <= 2 + QuotedLen(s[0], s[1..]) ==> Ends(open, close, depth, s, |s|)
  {
    hide QuotedLen, Level;
    LevelInQuotes(open, close, depth, s);
  }

  lemma GoesOnAfterQuotes(open: char, close: char, depth: nat, s: string, m: nat)
    requires s != "" && IsQuote(s[0]) && s[0] != open && s[0] != close && depth > 0
    requires var k := 2 + QuotedLen(s[0], s[1..]);
             k < |s| && m <= |s| - k && Ends(open, close, depth, s[k..], m) && (m > 0 || m == |s| - k)
    ensures Ends(open, close, depth, s, 2 + QuotedLen(s[0], s[1..]) + m)
  {
    hide QuotedLen, Level, Ends;
    LevelInQuotes(open, close, depth, s);
    EndsLater(open, close, depth, s, 2 + QuotedLen(s[0], s[1..]), depth, m);
  }

  lemma ClosedAtOnce(open: char, close: char, depth: nat, s: string)
    requires Brackets(open, close) && s != "" && s[0] == close && depth > 0 && depth % DEPTH_LIMIT <= 1
    ensures Ends(open, close, depth, s, 1)
  {
    FirstByte(open, close, depth, s);
    Wraps(depth);
    hide Level, Deeper;
    assert Level(open, close, depth, s, 0) == depth;
  }

  lemma GoesOnAfterByte(open: char, close: char, depth: nat, s: string, rest: nat, m: nat)
    requires s != "" && !IsQuote(s[0]) && depth > 0
    requires rest == depth + if s[0] == open then 1 else if s[0] == close then -1 else 0
    requires rest < DEPTH_LIMIT ==> depth < DEPTH_LIMIT
    requires m <= |s| - 1 && Ends(open, close, rest, s[1..], m) && (m > 0 || m == |s| - 1)
    ensures Ends(open, close, depth, s, 1 + m)
  {
    FirstByte(open, close, depth, s);
    hide Level, Ends;
    EndsLater(open, close, depth, s, 1, rest, m);
  }

  /** The scan, with the level in its wrapping counter, ends where the brackets balance unless they were too deep. */
  lemma {:induction false} BalancedEnds(open: char, close: char, depth: nat, s: string)
    requires Brackets(open, close) && depth > 0
    ensures Ends(open, close, depth, s, BalancedLen(open, close, depth % DEPTH_LIMIT, s))
    decreases |s|
  {
    hide QuotedLen, BalancedLen, Balance, Read, Ends, Level, Deeper, Shallow;
    var d := depth % DEPTH_LIMIT;
    if s == "" {
      EndsWithText(open, close, depth, d);
    } else {
      K.BalancedStep(open, close, d, s);
      Wraps(depth);
      if IsQuote(s[0]) {
        EndsAfterQuotes(open, close, depth, s, d);
        var k := 2 + QuotedLen(s[0], s[1..]);
        if k < |s| {
          BalancedEnds(open, close, depth, s[k..]);
          GoesOnAfterQuotes(open, close, depth, s, BalancedLen(open, close, d, s[k..]));
        }
      } else if s[0] == close && d <= 1 {
        ClosedAtOnce(open, close, depth, s);
      } else {
        FirstByte(open, close, depth, s);
        var rest := if s[0] == open then depth + 1 else if s[0] == close then depth - 1 else depth;
        BalancedEnds(open, close, rest, s[1..]);
        GoesOnAfterByte(open, close, depth, s, rest, BalancedLen(open, close, rest % DEPTH_LIMIT, s[1..]));
      }
    }
  }

  /** The brackets of a value of length `n` first balance at its end, if they are shallow and the text goes on. */
  predicate FirstBalance(open: char, close: char, s: string, n: nat)
    requires n <= |s|
  {
    (forall i | 0 < i < n :: Level(open, close, 0, s, i) > 0) &&
    (n < |s| ==> (Level(open, close, 0, s, n) == 0 <==> Shallow(open, close, 0, s, n)))
  }

  /**
   * A bracketed value never goes on after its brackets, the first one included,
   * have balanced outside quotes. If it ends before the text does, it ends
   * where they balance exactly if they were nested less than 2^32 deep.
   */
  lemma {:induction false} BracketedValueEndsAtFirstClose(open: char, close: char, s: string)
    requires Brackets(open, close) && s != "" && s[0] == open
    ensures FirstBalance(open, close, s, BalancedLen(open, close, 0, s))
  {
    hide QuotedLen, BalancedLen, Balance, Read, Level;
    K.BalancedStep(open, close, 0, s);
    assert Deeper(0) == 1;
    BalancedEnds(open, close, 1, s[1..]);
    FirstByte(open, close, 0, s);
    forall i | 1 <= i <= |s| ensures Level(open, close, 0, s, i) == Level(open, close, 1, s[1..], i - 1) {
      LevelLater(open, close, 0, s, 1, i);
    }
    var n := BalancedLen(open, close, 0, s);
    if n < |s| {
      assert Level(open, close, 0, s, 0) == 0;
      forall i | 0 <= i < n - 1 ensures Level(open, close, 1, s[1..], i) == Level(open, close, 0, s, i + 1) {
      }
    }
  }

  function Repeat(c: char, n: nat): (s: string)
    ensures |s| == n && forall i | 0 <= i < n :: s[i] == c
  {
    seq(n, _ => c)
  }

  lemma RepeatFirst(open: char, k: nat, t: string)
    requires k > 0
    ensures var s := Repeat(open, k) + t;
            s != "" && s[0] == open && s[1..] == Repeat(open, k - 1) + t
  {
  }

  lemma DeeperModulo(depth: nat)
    ensures Deeper(depth % DEPTH_LIMIT) == (depth + 1) % DEPTH_LIMIT
  {
  }

  lemma OpenStep(open: char, close: char, depth: nat, s: string)
    requires s != "" && s[0] == open
    ensures BalancedLen(open, close, depth, s) == 1 + BalancedLen(open, close, Deeper(depth), s[1..])
  {
  }

  lemma {:induction false} ScanRepeated(open: char, close: char, depth: nat, k: nat, t: string)
    requires Brackets(open, close) && t != ""
    ensures BalancedLen(open, close, depth % DEPTH_LIMIT, Repeat(open, k) + t)
         == k + BalancedLen(open, close, (depth + k) % DEPTH_LIMIT, t)
    decreases k
  {
    hide BalancedLen, Repeat, QuotedLen, Deeper;
    if k == 0 {
      assert Repeat(open, 0) + t == t;
    } else {
      RepeatFirst(open, k, t);
      OpenStep(open, close, depth % DEPTH_LIMIT, Repeat(open, k) + t);
      DeeperModulo(depth);
      assert depth + 1 + (k - 1) == depth + k;
      ScanRepeated(open, close, depth + 1, k - 1, t);
    }
  }

  lemma {:induction false} LevelOfRepeated(open: char, close: char, k: nat)
    requires Brackets(open, close)
    ensures Balance(Outside, open, close, Repeat(open, k)) == k
  {
    if k > 0 {
      assert Repeat(open, k)[1..] == Repeat(open, k - 1);
      LevelOfRepeated(open, close, k - 1);
    }
  }

  function Deep(open: char, close: char): string {
    Repeat(open, 0x1_0000_0000) + [close, ' ']
  }

  lemma DeepLen(open: char, close: char)
    requires Brackets(open, close)
    ensures BalancedLen(open, close, 0, Deep(open, close)) == 0x1_0000_0001
  {
    hide BalancedLen, Repeat, QuotedLen;
    var t := [close, ' '];
    ScanRepeated(open, close, 0, DEPTH_LIMIT, t);
    K.BalancedStep(open, close, 0, t);
  }

  lemma DeepLevel(open: char, close: char)
    requires Brackets(open, close)
    ensures var s := Deep(open, close);
            |s| == 0x1_0000_0002 && s[0] == open && Level(open, close, 0, s, 0x1_0000_0000) == 0x1_0000_0000
  {
    hide Balance;
    var s, n := Deep(open, close), 0x1_0000_0000;
    assert s[..n] == Repeat(open, n);
    hide Repeat;
    LevelOfRepeated(open, close, n);
  }

  /** 2^32 opening brackets wrap the counter, and the first closing one ends the value with the others open. */
  lemma DeepNestingEndsEarly(open: char, close: char)
    requires Brackets(open, close)
    ensures var s := Repeat(open, 0x1_0000_0000) + [close, ' '];
            var n := BalancedLen(open, close, 0, s);
            n == 0x1_0000_0001 < |s| && Level(open, close, 0, s, n) != 0
  {
    hide BalancedLen, Level, Repeat;
    var s := Deep(open, close);
    DeepLen(open, close);
    DeepLevel(open, close);
    BracketedValueEndsAtFirstClose(open, close, s);
    assert Level(open, close, 0, s, 0x1_0000_0000) == 0x1_0000_0000;
  }

  // ---------------------------------------------------------- which kind of value

  lemma BlanksSkipped(v: string, p: nat)
    requires p <= |v| && (forall i | 0 <= i < p :: v[i] in F.BLANKS) && (p < |v| ==> v[p] !in F.BLANKS)
    ensures Lead(IsSpace, v) == p
  {
    assert v[0..] == v;
    F.BlanksAreSpaces(v, 0, p);
  }

  lemma BareValue(v: string, p: nat)
    requires p <= |v|
    ensures var b := p + Lead(IsBare, v[p..]);
            b <= |v| && (forall i | p <= i < b :: v[i] !in F.BLANKS && v[i] !in ",;") &&
            (b < |v| ==> v[b] in F.BLANKS || v[b] in ",;")
  {
    var b := p + Lead(IsBare, v[p..]);
    forall i | p <= i < b ensures v[i] !in F.BLANKS && v[i] !in ",;" {
      assert v[i] == v[p..][i - p];
      F.ByteClasses(v[i]);
    }
    if b < |v| {
      assert v[b] == v[p..][b - p];
      F.ByteClasses(v[b]);
    }
  }

  lemma ValueKinds(v: string)
    ensures var p := Lead(IsSpace, v);
            ValueBounds(v)
            == if p == |v| then Missing
               else if v[p] == '"' || v[p] == '\'' then Span(p + 1, p + 1 + QuotedLen(v[p], v[p + 1..]))
               else if v[p] == '[' then Span(p, p + BalancedLen('[', ']', 0, v[p..]))
               else if v[p] == '{' then Span(p, p + BalancedLen('{', '}', 0, v[p..]))
               else Span(p, p + Lead(IsBare, v[p..]))
  {
    hide Lead, QuotedLen, BalancedLen, IsSpace, IsBare;
  }

  /**
   * The first byte that is not blank decides what a value is. After a quote it
   * runs to where the reading first leaves the quotes; from a bracket to where
   * the brackets balance; and from any other byte to the next blank, comma or
   * semicolon. Only blank text has no value.
   */
  lemma ValueForms(v: string, p: nat)
    requires p <= |v| && (forall i | 0 <= i < p :: v[i] in F.BLANKS) && (p < |v| ==> v[p] !in F.BLANKS)
    ensures p == |v| <==> ValueBounds(v).Missing?
    ensures p < |v| ==>
              var a, b := ValueBounds(v).start, ValueBounds(v).end;
              match v[p]
              case '"' => a == p + 1 <= b <= |v| && FirstReturn('"', v[a..], b - a)
              case '\'' => a == p + 1 <= b <= |v| && FirstReturn('\'', v[a..], b - a)
              case '[' => a == p <= b <= |v| && FirstBalance('[', ']', v[a..], b - a)
              case '{' => a == p <= b <= |v| && FirstBalance('{', '}', v[a..], b - a)
              case _ =>
                a == p <= b <= |v| && (forall i | p <= i < b :: v[i] !in F.BLANKS && v[i] !in ",;") &&
                (b < |v| ==> v[b] in F.BLANKS || v[b] in ",;")
  {
    hide Lead, QuotedLen, BalancedLen, FirstReturn, FirstBalance, ValueBounds;
    BlanksSkipped(v, p);
    ValueKinds(v);
    if p < |v| {
      match v[p]
      case '"' => QuotedEndsAtFirstReturn('"', v[p + 1..]);
      case '\'' => QuotedEndsAtFirstReturn('\'', v[p + 1..]);
      case '[' => BracketedValueEndsAtFirstClose('[', ']', v[p..]);
      case '{' => BracketedValueEndsAtFirstClose('{', '}', v[p..]);
      case _ => BareValue(v, p);
    }
  }
}
