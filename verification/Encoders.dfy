/**
 * The unpadded base32 and base64url encoders, against the definition of
 * RFC 4648: the bytes as one big-endian string of bits, cut into groups of five
 * (section 6) or six (section 5), the last group filled with zeros.
 */
module Encoders {
  import opened Hex
  import opened Integers

  // ------------------------------------------------------------------------- bits

  /** `n >> k`. */
  function Shr(n: nat, k: nat): nat {
    if k == 0 then n else Shr(n / 2, k - 1)
  }

  /** `n << k`, before any bits are lost. */
  function Shl(n: nat, k: nat): nat {
    if k == 0 then n else 2 * Shl(n, k - 1)
  }

  /** The lowest `width` bits of `n`, most significant first. */
  function Bits(n: nat, width: nat): (b: seq<bool>)
    ensures |b| == width
  {
    if width == 0 then [] else Bits(n / 2, width - 1) + [n % 2 == 1]
  }

  /** The number that a string of bits denotes, most significant first. */
  function Value(b: seq<bool>): (n: nat)
    ensures n < Pow2(|b|)
  {
    if b == [] then 0 else 2 * Value(b[..|b| - 1]) + (if b[|b| - 1] then 1 else 0)
  }

  function ByteBits(bytes: seq<byte>): (b: seq<bool>)
    ensures |b| == 8 * |bytes|
  {
    if bytes == [] then [] else Bits(bytes[0], 8) + ByteBits(bytes[1..])
  }

  lemma MulAtLeast(k: int, d: nat)
    requires k >= 1
    ensures k * d >= d
  {
    assert k * d == (k - 1) * d + d;
  }

  lemma DivisionUnique(n: nat, d: nat, q: nat, r: nat)
    requires r < d && n == q * d + r
    ensures n / d == q && n % d == r
  {
    var p: int := n / d;
    assert n == p * d + n % d;
    assert (p - q) * d == p * d - q * d;
    assert (q - p) * d == q * d - p * d;
    if p > q {
      MulAtLeast(p - q, d);
    } else if p < q {
      MulAtLeast(q - p, d);
    }
  }

  lemma Halve(n: nat, p: nat)
    requires p > 0
    ensures n % (2 * p) == 2 * (n / 2 % p) + n % 2
    ensures n / (2 * p) == n / 2 / p
  {
    var q, r := n / 2 / p, n / 2 % p;
    assert n / 2 == q * p + r;
    assert q * (2 * p) == 2 * (q * p);
    DivisionUnique(n, 2 * p, q, 2 * r + n % 2);
  }

  lemma {:induction false} ValueOfBits(n: nat, width: nat)
    ensures Value(Bits(n, width)) == n % Pow2(width)
  {
    if width > 0 {
      ValueOfBits(n / 2, width - 1);
      assert Bits(n, width)[..width - 1] == Bits(n / 2, width - 1);
      Halve(n, Pow2(width - 1));
    }
  }

  lemma {:induction false} ShrDivides(n: nat, k: nat)
    ensures Shr(n, k) == n / Pow2(k)
  {
    if k > 0 {
      ShrDivides(n / 2, k - 1);
      Halve(n, Pow2(k - 1));
    }
  }

  lemma {:induction false} BitsOfValue(b: seq<bool>)
    ensures Bits(Value(b), |b|) == b
  {
    if b != [] {
      BitsOfValue(b[..|b| - 1]);
    }
  }

  lemma LastBit(n: nat, width: nat)
    requires width > 0
    ensures Bits(n, width) == Bits(n / 2, width - 1) + [n % 2 == 1]
  {
  }

  lemma NoBits(n: nat)
    ensures Bits(n, 0) == [] && Shr(n, 0) == n
  {
  }

  lemma OneMoreShift(n: nat, k: nat)
    requires k > 0
    ensures Shr(n, k) == Shr(n / 2, k - 1)
  {
  }

  /** Shifting right drops the last bits. */
  lemma {:induction false} BitsSplit(n: nat, width: nat, k: nat)
    ensures Bits(n, width + k) == Bits(Shr(n, k), width) + Bits(n, k)
  {
    hide Bits, Shr;
    if k == 0 {
      NoBits(n);
      assert Bits(n, width) + [] == Bits(n, width);
    } else {
      BitsSplit(n / 2, width, k - 1);
      LastBit(n, width + k);
      LastBit(n, k);
      OneMoreShift(n, k);
      assert width + k - 1 == width + (k - 1);
    }
  }

  /** Shifting left appends zeros. */
  lemma {:induction false} BitsShl(n: nat, width: nat, k: nat)
    ensures Bits(Shl(n, k), width + k) == Bits(n, width) + Bits(0, k)
  {
    if k > 0 {
      BitsShl(n, width, k - 1);
    }
  }

  /** Bits beyond the width do not matter. */
  lemma BitsModulo(n: nat, high: nat, width: nat)
    ensures Bits(n % Pow2(high + width), width) == Bits(n, width)
  {
    hide Bits, Value, Pow2;
    var m := n % Pow2(high + width);
    ValueOfBits(n, high + width);
    BitsOfValue(Bits(n, high + width));
    BitsSplit(n, high, width);
    BitsSplit(m, high, width);
    assert Bits(n, width) == Bits(n, high + width)[high..];
    assert Bits(m, width) == Bits(m, high + width)[high..];
  }

  lemma BufferParts(buffer: nat, b: byte)
    ensures var next := 256 * buffer % 0x1_0000_0000 + (b as int);
            next / 256 == buffer % 0x100_0000 && next % 256 == b
  {
    assert 256 * buffer % 0x1_0000_0000 == 256 * (buffer % 0x100_0000);
  }

  lemma PowersOfTwo()
    ensures Pow2(0) == 1 && Pow2(1) == 2 && Pow2(2) == 4 && Pow2(3) == 8 && Pow2(4) == 16 && Pow2(5) == 32
    ensures Pow2(6) == 64 && Pow2(7) == 128 && Pow2(8) == 256 && Pow2(10) == 1024 && Pow2(12) == 4096
    ensures Pow2(18) == 0x4_0000 && Pow2(24) == 0x100_0000
  {
    assert Pow2(6) == 64;
    assert Pow2(12) == 4096;
    assert Pow2(18) == 0x4_0000;
  }

  /** Reading one byte into the buffer, whose bits from the 32nd on are lost, keeps up to 24 pending ones. */
  lemma BufferShift(buffer: nat, left: nat, b: byte)
    requires left <= 24
    ensures Bits(256 * buffer % 0x1_0000_0000 + (b as int), left + 8) == Bits(buffer, left) + Bits(b, 8)
  {
    hide Bits, Shr, Pow2;
    var next := 256 * buffer % 0x1_0000_0000 + (b as int);
    PowersOfTwo();
    BufferParts(buffer, b);
    BitsSplit(next, left, 8);
    ShrDivides(next, 8);
    BitsModulo(buffer, 24 - left, left);
    BitsModulo(next, 0, 8);
  }

  lemma {:induction false} ShlSmall(n: nat)
    ensures Shl(n, 2) == 4 * n && Shl(n, 4) == 16 * n
  {
    assert Shl(n, 1) == 2 * n;
    assert Shl(n, 3) == 2 * Shl(n, 2);
  }

  // ------------------------------------------------------------------- definitions

  datatype Code = Base32 | Base64Url
  {
    function Width(): nat {
      match this
      case Base32 => 5
      case Base64Url => 6
    }

    /** The alphabet: "A" to "Z" and "2" to "7", or "A" to "Z", "a" to "z", "0" to "9", "-" and "_". */
    function Symbol(v: nat): char
      requires v < Pow2(Width())
    {
      if v < 26 then ('A' as int + v) as char
      else if this == Base32 then (PowersOfTwo(); ('2' as int + (v - 26)) as char)
      else if v < 52 then ('a' as int + (v - 26)) as char
      else if v < 62 then ('0' as int + (v - 52)) as char
      else if v == 62 then '-'
      else '_'
    }

    predicate InAlphabet(c: char) {
      match this
      case Base32 => 'A' <= c <= 'Z' || '2' <= c <= '7'
      case Base64Url => 'A' <= c <= 'Z' || 'a' <= c <= 'z' || '0' <= c <= '9' || c == '-' || c == '_'
    }

    function Digit(c: char): nat
      requires InAlphabet(c)
    {
      if 'A' <= c <= 'Z' then c as int - 'A' as int
      else if this == Base32 then c as int - '2' as int + 26
      else if 'a' <= c <= 'z' then c as int - 'a' as int + 26
      else if '0' <= c <= '9' then c as int - '0' as int + 52
      else if c == '-' then 62
      else 63
    }
  }

  /** The text of a string of bits: one symbol a group, the last group filled with zeros. */
  function Text(code: Code, bits: seq<bool>): string {
    var w := code.Width();
    if bits == [] then ""
    else if |bits| < w then [code.Symbol(Value(bits + Bits(0, w - |bits|)))]
    else [code.Symbol(Value(bits[..w]))] + Text(code, bits[w..])
  }

  predicate Written(code: Code, text: string) {
    forall i | 0 <= i < |text| :: code.InAlphabet(text[i])
  }

  function SymbolBits(code: Code, text: string): seq<bool>
    requires Written(code, text)
  {
    if text == "" then [] else Bits(code.Digit(text[0]), code.Width()) + SymbolBits(code, text[1..])
  }

  function ByteOf(bits: seq<bool>): byte
    requires |bits| == 8
  {
    PowersOfTwo();
    Value(bits)
  }

  function WholeBytes(bits: seq<bool>): seq<byte> {
    if |bits| < 8 then [] else [ByteOf(bits[..8])] + WholeBytes(bits[8..])
  }

  /** The decoder: the bits of all symbols, cut into bytes, an incomplete last byte dropped. */
  function Decode(code: Code, text: string): seq<byte>
    requires Written(code, text)
  {
    WholeBytes(SymbolBits(code, text))
  }

  // ---------------------------------------------------------------------- encoders

  lemma EmitFull(code: Code, n: nat, left: nat, rest: seq<bool>)
    requires left >= code.Width()
    ensures var w := code.Width();
            Text(code, Bits(n, left) + rest)
            == [code.Symbol(Shr(n, left - w) % Pow2(w))] + Text(code, Bits(n, left - w) + rest)
  {
    hide Bits, Pow2, Shr, Code.Symbol;
    var w := code.Width();
    var bits := Bits(n, left) + rest;
    BitsSplit(n, w, left - w);
    ValueOfBits(Shr(n, left - w), w);
    assert bits[..w] == Bits(Shr(n, left - w), w);
    assert bits[w..] == Bits(n, left - w) + rest;
  }

  lemma {:induction false} EmitLast(code: Code, n: nat, left: nat)
    requires 0 < left < code.Width()
    ensures var w := code.Width();
            Text(code, Bits(n, left)) == [code.Symbol(Shl(n, w - left) % Pow2(w))]
  {
    hide Bits, Pow2, Code.Symbol;
    var w := code.Width();
    BitsShl(n, left, w - left);
    ValueOfBits(Shl(n, w - left), w);
  }

  lemma EmitFull32(n: nat, left: nat, rest: seq<bool>)
    requires left >= 5
    ensures Shr(n, left - 5) % 32 < Pow2(Base32.Width())
    ensures Text(Base32, Bits(n, left) + rest)
         == [Base32.Symbol(Shr(n, left - 5) % 32)] + Text(Base32, Bits(n, left - 5) + rest)
  {
    hide Bits, Text, Pow2, Shr, Code.Symbol;
    PowersOfTwo();
    EmitFull(Base32, n, left, rest);
  }

  lemma {:induction false} EmitLast32(n: nat, left: nat)
    requires 0 < left < 5
    ensures Shl(n, 5 - left) % 0x1_0000_0000 % 32 < Pow2(Base32.Width())
    ensures Text(Base32, Bits(n, left)) == [Base32.Symbol(Shl(n, 5 - left) % 0x1_0000_0000 % 32)]
  {
    hide Bits, Text, Pow2, Shl, Code.Symbol;
    PowersOfTwo();
    EmitLast(Base32, n, left);
    assert Shl(n, 5 - left) % 0x1_0000_0000 % 32 == Shl(n, 5 - left) % 32;
  }

  lemma {:induction false} Start(bytes: seq<byte>)
    ensures Bits(0, 0) + ByteBits(bytes[0..]) == ByteBits(bytes)
  {
  }

  lemma NextByte(bytes: seq<byte>, n: nat)
    requires n < |bytes|
    ensures ByteBits(bytes[n..]) == Bits(bytes[n], 8) + ByteBits(bytes[n + 1..])
  {
    assert bytes[n..][1..] == bytes[n + 1..];
  }

  lemma Reassociate(a: seq<bool>, b: seq<bool>, c: seq<bool>)
    ensures a + (b + c) == (a + b) + c
  {
  }

  lemma {:induction false} Finish(code: Code, bytes: seq<byte>, n: nat, left: nat)
    ensures Bits(n, left) + ByteBits(bytes[|bytes|..]) == Bits(n, left)
    ensures left == 0 ==> Text(code, Bits(n, left)) == ""
  {
  }

  method Base32Encode(bytes: seq<byte>) returns (output: string)
    ensures output == Text(Base32, ByteBits(bytes))
  {
    hide *;
    output := "";
    var buffer: nat, bitsLeft: nat := 0, 0;
    Start(bytes);
    for n := 0 to |bytes|
      invariant bitsLeft < 5
      invariant Text(Base32, ByteBits(bytes)) == output + Text(Base32, Bits(buffer, bitsLeft) + ByteBits(bytes[n..]))
    {
      NextByte(bytes, n);
      BufferShift(buffer, bitsLeft, bytes[n]);
      Reassociate(Bits(buffer, bitsLeft), Bits(bytes[n], 8), ByteBits(bytes[n + 1..]));
      buffer := 256 * buffer % 0x1_0000_0000 + (bytes[n] as int);
      bitsLeft := bitsLeft + 8;
      while bitsLeft >= 5
        invariant bitsLeft <= 12
        invariant Text(Base32, ByteBits(bytes))
               == output + Text(Base32, Bits(buffer, bitsLeft) + ByteBits(bytes[n + 1..]))
      {
        EmitFull32(buffer, bitsLeft, ByteBits(bytes[n + 1..]));
        var index := Shr(buffer, bitsLeft - 5) % 32;
        output := output + [Base32.Symbol(index)];
        bitsLeft := bitsLeft - 5;
      }
    }
    Finish(Base32, bytes, buffer, bitsLeft);
    if bitsLeft > 0 {
      EmitLast32(buffer, bitsLeft);
      var index := Shl(buffer, 5 - bitsLeft) % 0x1_0000_0000 % 32;
      output := output + [Base32.Symbol(index)];
    }
  }

  /** Three bytes in one 24-bit chunk. */
  function Chunk(a: byte, b: byte, c: byte): nat {
    0x1_0000 * (a as int) + 0x100 * (b as int) + (c as int)
  }

  lemma AppendByte(n: nat, width: nat, b: byte)
    ensures Bits(256 * n + (b as int), width + 8) == Bits(n, width) + Bits(b, 8)
  {
    hide Bits, Shr, Pow2;
    var next := 256 * n + (b as int);
    PowersOfTwo();
    BitsSplit(next, width, 8);
    ShrDivides(next, 8);
    BitsModulo(next, 0, 8);
  }

  lemma {:induction false} ChunkBits(a: byte, b: byte, c: byte)
    ensures Bits(Chunk(a, b, c), 24) == Bits(a, 8) + Bits(b, 8) + Bits(c, 8)
    ensures Bits(Chunk(0, a, b), 16) == Bits(a, 8) + Bits(b, 8)
  {
    hide Bits;
    assert Chunk(0, a, b) == 256 * (a as int) + (b as int);
    assert Chunk(a, b, c) == 256 * Chunk(0, a, b) + (c as int);
    hide Chunk;
    AppendByte(a, 8, b);
    AppendByte(Chunk(0, a, b), 16, c);
  }

  lemma NextChunk(bytes: seq<byte>, i: nat)
    requires i + 3 <= |bytes|
    ensures ByteBits(bytes[i..])
         == Bits(Chunk(bytes[i], bytes[i + 1], bytes[i + 2]), 24) + ByteBits(bytes[i + 3..])
  {
    hide Bits, ByteBits, Chunk;
    NextByte(bytes, i);
    NextByte(bytes, i + 1);
    NextByte(bytes, i + 2);
    ChunkBits(bytes[i], bytes[i + 1], bytes[i + 2]);
  }

  lemma LastBytes(bytes: seq<byte>, i: nat)
    requires i <= |bytes| < i + 3
    ensures |bytes| == i ==> ByteBits(bytes[i..]) == []
    ensures |bytes| == i + 1 ==> ByteBits(bytes[i..]) == Bits(bytes[i], 8)
    ensures |bytes| == i + 2 ==> ByteBits(bytes[i..]) == Bits(Chunk(0, bytes[i], bytes[i + 1]), 16)
  {
    if |bytes| == i + 1 {
      NextByte(bytes, i);
    } else if |bytes| == i + 2 {
      NextByte(bytes, i);
      NextByte(bytes, i + 1);
      ChunkBits(bytes[i], bytes[i + 1], 0);
    }
  }

  lemma {:induction false} EmptyText(code: Code)
    ensures Text(code, []) == ""
  {
  }

  lemma {:induction false} FourSymbols(chunk: nat, rest: seq<bool>)
    ensures Pow2(6) == 64
    ensures Text(Base64Url, Bits(chunk, 24) + rest)
         == [Base64Url.Symbol(chunk / 0x4_0000 % 64)] + [Base64Url.Symbol(chunk / 0x1000 % 64)] +
            [Base64Url.Symbol(chunk / 0x40 % 64)] + [Base64Url.Symbol(chunk % 64)] + Text(Base64Url, rest)
  {
    hide Bits, Text, Pow2, Shr, Code.Symbol;
    PowersOfTwo();
    ShrDivides(chunk, 18);
    ShrDivides(chunk, 12);
    ShrDivides(chunk, 6);
    ShrDivides(chunk, 0);
    EmitFull(Base64Url, chunk, 24, rest);
    EmitFull(Base64Url, chunk, 18, rest);
    EmitFull(Base64Url, chunk, 12, rest);
    EmitFull(Base64Url, chunk, 6, rest);
    assert Bits(chunk, 0) + rest == rest;
  }

  lemma {:induction false} TwoSymbols(a: byte)
    ensures Pow2(6) == 64
    ensures var chunk := Chunk(a, 0, 0);
            Text(Base64Url, Bits(a, 8))
            == [Base64Url.Symbol(chunk / 0x4_0000 % 64)] + [Base64Url.Symbol(chunk / 0x1000 % 64)]
  {
    hide Bits, Text, Pow2, Shr, Code.Symbol;
    PowersOfTwo();
    ShrDivides(a, 2);
    ShlSmall(a);
    EmitFull(Base64Url, a, 8, []);
    EmitLast(Base64Url, a, 2);
    assert Bits(a, 8) + [] == Bits(a, 8) && Bits(a, 2) + [] == Bits(a, 2);
  }

  lemma LowZeros(n: nat)
    ensures 256 * n / 0x4_0000 == n / 0x400 && 256 * n / 0x1000 == n / 0x10 && 256 * n / 0x40 == 4 * n
  {
  }

  lemma ThreeSymbols(a: byte, b: byte)
    ensures Pow2(6) == 64
    ensures var chunk := Chunk(a, b, 0);
            Text(Base64Url, Bits(Chunk(0, a, b), 16))
            == [Base64Url.Symbol(chunk / 0x4_0000 % 64)] + [Base64Url.Symbol(chunk / 0x1000 % 64)] +
               [Base64Url.Symbol(chunk / 0x40 % 64)]
  {
    hide Bits, Text, Pow2, Shr, Code.Symbol;
    var n := Chunk(0, a, b);
    assert Chunk(a, b, 0) == 256 * n;
    PowersOfTwo();
    LowZeros(n);
    ShrDivides(n, 10);
    ShrDivides(n, 4);
    ShlSmall(n);
    hide Chunk, Shl;
    EmitFull(Base64Url, n, 16, []);
    EmitFull(Base64Url, n, 10, []);
    EmitLast(Base64Url, n, 4);
    assert Bits(n, 16) + [] == Bits(n, 16) && Bits(n, 10) + [] == Bits(n, 10) && Bits(n, 4) + [] == Bits(n, 4);
  }

  method Base64UrlEncode(bytes: seq<byte>) returns (output: string)
    ensures output == Text(Base64Url, ByteBits(bytes))
  {
    hide Bits, Text, Pow2, ByteBits;
    output := "";
    var index := 0;
    PowersOfTwo();
    assert bytes[0..] == bytes;
    EmptyText(Base64Url);
    while index + 3 <= |bytes|
      invariant 0 <= index <= |bytes|
      invariant Text(Base64Url, ByteBits(bytes)) == output + Text(Base64Url, ByteBits(bytes[index..]))
    {
      var chunk := Chunk(bytes[index], bytes[index + 1], bytes[index + 2]);
      ghost var rest := ByteBits(bytes[index + 3..]);
      NextChunk(bytes, index);
      FourSymbols(chunk, rest);
      output := output + [Base64Url.Symbol(chunk / 0x4_0000 % 64)];
      output := output + [Base64Url.Symbol(chunk / 0x1000 % 64)];
      output := output + [Base64Url.Symbol(chunk / 0x40 % 64)];
      output := output + [Base64Url.Symbol(chunk % 64)];
      index := index + 3;
    }
    LastBytes(bytes, index);
    if |bytes| - index == 1 {
      var chunk := Chunk(bytes[index], 0, 0);
      TwoSymbols(bytes[index]);
      output := output + [Base64Url.Symbol(chunk / 0x4_0000 % 64)];
      output := output + [Base64Url.Symbol(chunk / 0x1000 % 64)];
    } else if |bytes| - index == 2 {
      var chunk := Chunk(bytes[index], bytes[index + 1], 0);
      ThreeSymbols(bytes[index], bytes[index + 1]);
      output := output + [Base64Url.Symbol(chunk / 0x4_0000 % 64)];
      output := output + [Base64Url.Symbol(chunk / 0x1000 % 64)];
      output := output + [Base64Url.Symbol(chunk / 0x40 % 64)];
    }
  }

  // ----------------------------------------------------------- lengths and decoding

  /** One symbol for every group, complete or not. */
  lemma {:induction false} TextLength(code: Code, bits: seq<bool>)
    ensures code == Base32 ==> |Text(code, bits)| == (|bits| + 4) / 5
    ensures code == Base64Url ==> |Text(code, bits)| == (|bits| + 5) / 6
    decreases |bits|
  {
    hide Code.Symbol, Bits, Value;
    var w := code.Width();
    if |bits| >= w {
      TextLength(code, bits[w..]);
    }
  }

  lemma {:induction false} EncodedLength(bytes: seq<byte>)
    ensures |Text(Base32, ByteBits(bytes))| == (8 * |bytes| + 4) / 5
    ensures |Text(Base64Url, ByteBits(bytes))| == (4 * |bytes| + 2) / 3
  {
    hide Text, ByteBits;
    TextLength(Base32, ByteBits(bytes));
    TextLength(Base64Url, ByteBits(bytes));
  }

  lemma SymbolReadback(code: Code, v: nat)
    requires v < Pow2(code.Width())
    ensures code.InAlphabet(code.Symbol(v)) && code.Digit(code.Symbol(v)) == v
  {
    PowersOfTwo();
  }

  lemma {:induction false} TextInAlphabet(code: Code, bits: seq<bool>)
    ensures Written(code, Text(code, bits))
    decreases |bits|
  {
    hide Code.InAlphabet, Code.Symbol, Code.Digit, Value, Bits;
    var w := code.Width();
    if |bits| >= w {
      TextInAlphabet(code, bits[w..]);
      SymbolReadback(code, Value(bits[..w]));
    } else if bits != [] {
      SymbolReadback(code, Value(bits + Bits(0, w - |bits|)));
    }
  }

  /** The bits of the symbols are the encoded bits and fewer zeros than a group holds. */
  lemma {:induction false} TextBits(code: Code, bits: seq<bool>) returns (filling: nat)
    ensures var text := Text(code, bits);
            Written(code, text) &&
            filling < code.Width() && SymbolBits(code, text) == bits + Bits(0, filling)
    decreases |bits|
  {
    hide Code.InAlphabet, Code.Symbol, Code.Digit, Value, Bits;
    var w := code.Width();
    var text := Text(code, bits);
    TextInAlphabet(code, bits);
    filling := 0;
    if |bits| >= w {
      var rest := TextBits(code, bits[w..]);
      filling := rest;
      SymbolReadback(code, Value(bits[..w]));
      BitsOfValue(bits[..w]);
      assert text[1..] == Text(code, bits[w..]);
      assert bits == bits[..w] + bits[w..];
    } else if bits != [] {
      filling := w - |bits|;
      var full := bits + Bits(0, filling);
      SymbolReadback(code, Value(full));
      BitsOfValue(full);
      assert text[1..] == "";
    }
  }

  lemma {:induction false} ByteBack(b: byte)
    ensures ByteOf(Bits(b, 8)) == b
  {
    hide Bits, Value;
    PowersOfTwo();
    ValueOfBits(b, 8);
  }

  lemma {:induction false} WholeBytesBack(bytes: seq<byte>, extra: seq<bool>)
    requires |extra| < 8
    ensures WholeBytes(ByteBits(bytes) + extra) == bytes
  {
    var bits := ByteBits(bytes) + extra;
    if bytes == [] {
      assert bits == extra;
    } else {
      hide Bits, Value;
      ByteBack(bytes[0]);
      assert bits[..8] == Bits(bytes[0], 8);
      assert bits[8..] == ByteBits(bytes[1..]) + extra;
      WholeBytesBack(bytes[1..], extra);
    }
  }

  /** Every byte string is decoded from its encoding, which is written in the alphabet. */
  lemma {:induction false} DecodeUndoesEncode(code: Code, bytes: seq<byte>)
    ensures var text := Text(code, ByteBits(bytes));
            Written(code, text) && Decode(code, text) == bytes
  {
    hide Text, ByteBits, SymbolBits, WholeBytes, Bits, Code.InAlphabet;
    var filling := TextBits(code, ByteBits(bytes));
    WholeBytesBack(bytes, Bits(0, filling));
  }

  // ---------------------------------------------------------------------- alphabets

  /** The alphabet of section 6 of RFC 4648. */
  lemma Base32Alphabet(v: nat)
    requires v < 32
    ensures v < Pow2(Base32.Width()) && Base32.Symbol(v) == "ABCDEFGHIJKLMNOPQRSTUVWXYZ234567"[v]
  {
    PowersOfTwo();
  }

  /** The alphabet of section 5, which ends in a hyphen and an underscore. */
  lemma Base64UrlAlphabet(v: nat)
    requires v < 64
    ensures v < Pow2(Base64Url.Width())
    ensures Base64Url.Symbol(v)
         == if v < 26 then "ABCDEFGHIJKLMNOPQRSTUVWXYZ"[v]
            else if v < 52 then "abcdefghijklmnopqrstuvwxyz"[v - 26]
            else if v < 62 then "0123456789"[v - 52]
            else "-_"[v - 62]
  {
    PowersOfTwo();
  }
}
