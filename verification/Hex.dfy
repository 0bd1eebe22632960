/** Lower-case hexadecimal encoding of bytes. */
module Hex {
  import opened Bytes

  type byte = b: int | 0 <= b < 256

  /** The digit for a value below 16, as the table "0123456789abcdef" gives it. */
  function Digit(n: nat): (c: char)
    requires n < 16
    ensures IsHexDigit(c)
  {
    if n < 10 then ('0' as int + n) as char else ('a' as int + (n - 10)) as char
  }

  function HexByte(b: byte): (s: string)
    ensures |s| == 2 && IsHexDigit(s[0]) && IsHexDigit(s[1])
  {
    [Digit(b / 16), Digit(b % 16)]
  }

  function Encode(bytes: seq<byte>): (s: string)
    ensures |s| == 2 * |bytes|
    ensures forall i | 0 <= i < |s| :: IsHexDigit(s[i])
  {
    if bytes == [] then "" else HexByte(bytes[0]) + Encode(bytes[1..])
  }

  lemma {:induction false} EncodeAppend(bytes: seq<byte>, b: byte)
    ensures Encode(bytes + [b]) == Encode(bytes) + HexByte(b)
  {
    if bytes == [] {
      assert bytes + [b] == [b];
    } else {
      EncodeAppend(bytes[1..], b);
      assert (bytes + [b])[1..] == bytes[1..] + [b];
    }
  }

  lemma EncodeNothing()
    ensures Encode([]) == ""
  {
  }

  lemma HexByteDigits(b: byte)
    ensures HexByte(b) == [Digit(b / 16)] + [Digit(b % 16)]
  {
  }

  lemma HexByteInjective(a: byte, b: byte)
    requires HexByte(a) == HexByte(b)
    ensures a == b
  {
    assert Digit(a / 16) == HexByte(a)[0] == HexByte(b)[0] == Digit(b / 16);
    assert Digit(a % 16) == HexByte(a)[1] == HexByte(b)[1] == Digit(b % 16);
  }

  /** Different byte strings have different encodings. */
  lemma {:induction false} EncodeInjective(a: seq<byte>, b: seq<byte>)
    requires Encode(a) == Encode(b)
    ensures a == b
  {
    if a != [] && b != [] {
      assert HexByte(a[0]) == Encode(a)[..2] == Encode(b)[..2] == HexByte(b[0]);
      assert Encode(a[1..]) == Encode(a)[2..] == Encode(b)[2..] == Encode(b[1..]);
      HexByteInjective(a[0], b[0]);
      EncodeInjective(a[1..], b[1..]);
    }
  }

  lemma DigitIs(n: nat)
    requires n < 16
    ensures Digit(n) == "0123456789abcdef"[n]
  {
  }

  /** Byte `i` is written as its two digits, the high one first. */
  lemma {:induction false} EncodedDigits(bytes: seq<byte>, i: nat)
    requires i < |bytes|
    ensures Encode(bytes)[2 * i] == "0123456789abcdef"[bytes[i] / 16]
    ensures Encode(bytes)[2 * i + 1] == "0123456789abcdef"[bytes[i] % 16]
  {
    hide Digit;
    if i == 0 {
      DigitIs(bytes[0] / 16);
      DigitIs(bytes[0] % 16);
    } else {
      EncodedDigits(bytes[1..], i - 1);
      var s := Encode(bytes);
      assert s[2..] == Encode(bytes[1..]);
      assert s[2 * i] == s[2..][2 * (i - 1)] && s[2 * i + 1] == s[2..][2 * (i - 1) + 1];
    }
  }

  lemma {:induction false} EncodeConcat(a: seq<byte>, b: seq<byte>)
    ensures Encode(a + b) == Encode(a) + Encode(b)
  {
    if b == [] {
      assert a + b == a;
    } else {
      hide Encode, HexByte;
      var n := |b| - 1;
      EncodeConcat(a, b[..n]);
      EncodeAppend(b[..n], b[n]);
      EncodeAppend(a + b[..n], b[n]);
      assert b == b[..n] + [b[n]];
      assert a + b == (a + b[..n]) + [b[n]];
      assert (Encode(a) + Encode(b[..n])) + HexByte(b[n]) == Encode(a) + (Encode(b[..n]) + HexByte(b[n]));
    }
  }
}
