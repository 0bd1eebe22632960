/**
 * Characters as code points, and their encoding as section 3 of RFC 3629
 * computes it. Well-formed text and white space are what this encoding says.
 */
module CodePoints {
  import opened Bytes
  import opened Utf8
  import opened RedactionSpec

  predicate Scalar(cp: nat) {
    cp < 0xD800 || 0xE000 <= cp < 0x11_0000
  }

  /** The code points of Unicode's White_Space property. */
  predicate WhiteSpace(cp: nat) {
    cp in [0x9, 0xA, 0xB, 0xC, 0xD, 0x20, 0x85, 0xA0, 0x1680, 0x2028, 0x2029, 0x202F, 0x205F, 0x3000] ||
    0x2000 <= cp <= 0x200A
  }

  function Byte(n: nat): (c: char)
    requires n < 0x100
    ensures c as int == n
  {
    n as char
  }

  /** Six bits of the code point each, after a first byte that tells how many bytes there are. */
  function Encode(cp: nat): (s: string)
    requires Scalar(cp)
    ensures 1 <= |s| <= 4
  {
    if cp < 0x80 then [Byte(cp)]
    else if cp < 0x800 then [Byte(0xC0 + cp / 0x40), Byte(0x80 + cp % 0x40)]
    else if cp < 0x1_0000 then
      [Byte(0xE0 + cp / 0x1000), Byte(0x80 + cp / 0x40 % 0x40), Byte(0x80 + cp % 0x40)]
    else
      [Byte(0xF0 + cp / 0x4_0000), Byte(0x80 + cp / 0x1000 % 0x40), Byte(0x80 + cp / 0x40 % 0x40),
       Byte(0x80 + cp % 0x40)]
  }

  predicate AllScalar(cps: seq<nat>) {
    forall i | 0 <= i < |cps| :: Scalar(cps[i])
  }

  function EncodeAll(cps: seq<nat>): string
    requires AllScalar(cps)
  {
    if cps == [] then "" else Encode(cps[0]) + EncodeAll(cps[1..])
  }

  // ------------------------------------------------------------- one character

  lemma ShortCharLen(cp: nat, t: string)
    requires cp < 0x800
    ensures CharLen(Encode(cp) + t) == |Encode(cp)|
  {
    var s := Encode(cp) + t;
    assert forall i | 0 <= i < |Encode(cp)| :: s[i] == Encode(cp)[i];
  }

  lemma ThreeByteCharLen(cp: nat, t: string)
    requires 0x800 <= cp < 0x1_0000 && Scalar(cp)
    ensures CharLen(Encode(cp) + t) == |Encode(cp)|
  {
    var s := Encode(cp) + t;
    assert s[0] == Byte(0xE0 + cp / 0x1000) && s[1] == Byte(0x80 + cp / 0x40 % 0x40) && s[2] == Byte(0x80 + cp % 0x40);
    assert cp / 0x1000 == 0 ==> cp / 0x40 % 0x40 >= 0x20;
    assert cp / 0x1000 == 13 ==> cp / 0x40 % 0x40 < 0x20;
    hide Encode;
  }

  lemma FourByteCharLen(cp: nat, t: string)
    requires 0x1_0000 <= cp < 0x11_0000
    ensures CharLen(Encode(cp) + t) == |Encode(cp)|
  {
    var s := Encode(cp) + t;
    assert s[0] == Byte(0xF0 + cp / 0x4_0000) && s[1] == Byte(0x80 + cp / 0x1000 % 0x40);
    assert s[2] == Byte(0x80 + cp / 0x40 % 0x40) && s[3] == Byte(0x80 + cp % 0x40);
    assert cp / 0x4_0000 == 0 ==> cp / 0x1000 % 0x40 >= 0x10;
    assert cp / 0x4_0000 == 4 ==> cp / 0x1000 % 0x40 < 0x10;
    hide Encode;
  }

  lemma CharLenOfEncoded(cp: nat, t: string)
    requires Scalar(cp)
    ensures CharLen(Encode(cp) + t) == |Encode(cp)|
  {
    hide Encode, CharLen;
    if cp < 0x800 {
      ShortCharLen(cp, t);
    } else if cp < 0x1_0000 {
      ThreeByteCharLen(cp, t);
    } else {
      FourByteCharLen(cp, t);
    }
  }

  lemma DecodeTwo(s: string) returns (cp: nat)
    requires CharLen(s) == 2
    ensures Scalar(cp) && s[..2] == Encode(cp)
  {
    var a, b := s[0] as int - 0xC0, s[1] as int - 0x80;
    cp := 0x40 * a + b;
    assert cp / 0x40 == a && cp % 0x40 == b;
  }

  lemma DecodeThree(s: string) returns (cp: nat)
    requires CharLen(s) == 3
    ensures Scalar(cp) && s[..3] == Encode(cp)
  {
    var a, b, c := s[0] as int - 0xE0, s[1] as int - 0x80, s[2] as int - 0x80;
    cp := 0x1000 * a + 0x40 * b + c;
    assert cp / 0x1000 == a && cp / 0x40 == 0x40 * a + b && cp / 0x40 % 0x40 == b && cp % 0x40 == c;
  }

  lemma LowBits(n: nat, high: nat, low: nat)
    requires low < 0x40 && n == 0x40 * high + low
    ensures n / 0x40 == high && n % 0x40 == low
  {
  }

  lemma Shifts(n: nat)
    ensures n / 0x1000 == n / 0x40 / 0x40 && n / 0x4_0000 == n / 0x40 / 0x40 / 0x40
  {
  }

  lemma SixBits(a: nat, b: nat, c: nat, d: nat)
    requires b < 0x40 && c < 0x40 && d < 0x40
    ensures var n := 0x4_0000 * a + 0x1000 * b + 0x40 * c + d;
            n / 0x4_0000 == a && n / 0x1000 % 0x40 == b && n / 0x40 % 0x40 == c && n % 0x40 == d
  {
    var n := 0x4_0000 * a + 0x1000 * b + 0x40 * c + d;
    LowBits(n, 0x1000 * a + 0x40 * b + c, d);
    LowBits(0x1000 * a + 0x40 * b + c, 0x40 * a + b, c);
    LowBits(0x40 * a + b, a, b);
    Shifts(n);
  }

  lemma DecodeFour(s: string) returns (cp: nat)
    requires CharLen(s) == 4
    ensures Scalar(cp) && s[..4] == Encode(cp)
  {
    var a, b, c, d := s[0] as int - 0xF0, s[1] as int - 0x80, s[2] as int - 0x80, s[3] as int - 0x80;
    cp := 0x4_0000 * a + 0x1000 * b + 0x40 * c + d;
    SixBits(a, b, c, d);
  }

  /** The character that a text starts with, read back. */
  lemma DecodeChar(s: string) returns (cp: nat)
    requires 0 < CharLen(s)
    ensures Scalar(cp) && s[..CharLen(s)] == Encode(cp)
  {
    if CharLen(s) == 1 {
      cp := s[0] as int;
    } else if CharLen(s) == 2 {
      cp := DecodeTwo(s);
    } else if CharLen(s) == 3 {
      cp := DecodeThree(s);
    } else {
      cp := DecodeFour(s);
    }
  }

  // -------------------------------------------------------------- whole texts

  lemma {:induction false} EncodedIsValid(cps: seq<nat>)
    requires AllScalar(cps)
    ensures ValidUtf8(EncodeAll(cps))
  {
    if cps != [] {
      EncodedIsValid(cps[1..]);
      CharLenOfEncoded(cps[0], EncodeAll(cps[1..]));
      hide CharLen, Encode;
      var s := EncodeAll(cps);
      assert s[|Encode(cps[0])|..] == EncodeAll(cps[1..]);
    }
  }

  lemma {:induction false} DecodeAll(s: string) returns (cps: seq<nat>)
    requires ValidUtf8(s)
    ensures AllScalar(cps) && EncodeAll(cps) == s
    decreases |s|
  {
    hide CharLen, Encode;
    if s == "" {
      cps := [];
    } else {
      var n := CharLen(s);
      var cp := DecodeChar(s);
      var rest := DecodeAll(s[n..]);
      cps := [cp] + rest;
      assert cps[1..] == rest;
      assert s == s[..n] + s[n..];
    }
  }

  /** A text is well-formed exactly when it is the encoding of some scalar values. */
  lemma ValidExactlyWhen(s: string)
    ensures ValidUtf8(s) <==> exists cps :: AllScalar(cps) && EncodeAll(cps) == s
  {
    hide ValidUtf8, EncodeAll;
    if ValidUtf8(s) {
      var cps := DecodeAll(s);
      assert AllScalar(cps) && EncodeAll(cps) == s;
    }
    if cps: seq<nat> :| AllScalar(cps) && EncodeAll(cps) == s {
      EncodedIsValid(cps);
    }
  }

  // -------------------------------------------------------------- white space

  lemma ShortWhiteLen(cp: nat, t: string)
    requires cp < 0x800
    ensures WhiteLen(Encode(cp) + t) == if WhiteSpace(cp) then |Encode(cp)| else 0
  {
    var s := Encode(cp) + t;
    assert forall i | 0 <= i < |Encode(cp)| :: s[i] == Encode(cp)[i];
  }

  lemma ThreeByteWhiteLen(cp: nat, t: string)
    requires 0x800 <= cp < 0x1_0000 && Scalar(cp)
    ensures WhiteLen(Encode(cp) + t) == if WhiteSpace(cp) then |Encode(cp)| else 0
  {
    var s := Encode(cp) + t;
    assert s[0] == Byte(0xE0 + cp / 0x1000) && s[1] == Byte(0x80 + cp / 0x40 % 0x40) && s[2] == Byte(0x80 + cp % 0x40);
    assert cp == 0x1000 * (cp / 0x1000) + 0x40 * (cp / 0x40 % 0x40) + cp % 0x40;
    hide Encode;
  }

  lemma FourByteWhiteLen(cp: nat, t: string)
    requires 0x1_0000 <= cp < 0x11_0000
    ensures WhiteLen(Encode(cp) + t) == 0 && !WhiteSpace(cp)
  {
    var s := Encode(cp) + t;
    assert s[0] == Byte(0xF0 + cp / 0x4_0000);
    hide Encode;
  }

  lemma WhiteLenOfEncoded(cp: nat, t: string)
    requires Scalar(cp)
    ensures WhiteLen(Encode(cp) + t) == if WhiteSpace(cp) then |Encode(cp)| else 0
  {
    hide Encode, WhiteLen, WhiteSpace;
    if cp < 0x800 {
      ShortWhiteLen(cp, t);
    } else if cp < 0x1_0000 {
      ThreeByteWhiteLen(cp, t);
    } else {
      FourByteWhiteLen(cp, t);
    }
  }

  lemma WhiteIsChar(s: string)
    requires 0 < WhiteLen(s)
    ensures CharLen(s) == WhiteLen(s)
  {
  }

  predicate AllWhite(cps: seq<nat>) {
    forall i | 0 <= i < |cps| :: Scalar(cps[i]) && WhiteSpace(cps[i])
  }

  lemma {:induction false} TrimsWhite(cps: seq<nat>, t: string)
    requires AllWhite(cps)
    ensures TrimLen(EncodeAll(cps) + t) == |EncodeAll(cps)| + TrimLen(t)
  {
    hide WhiteLen, Encode, WhiteSpace;
    if cps == [] {
      assert EncodeAll(cps) + t == t;
    } else {
      var rest := EncodeAll(cps[1..]) + t;
      assert EncodeAll(cps) + t == Encode(cps[0]) + rest;
      WhiteLenOfEncoded(cps[0], rest);
      assert (Encode(cps[0]) + rest)[|Encode(cps[0])|..] == rest;
      TrimsWhite(cps[1..], t);
    }
  }

  /** What trimming removes is white space. */
  lemma {:induction false} TrimmedIsWhite(s: string) returns (cps: seq<nat>)
    ensures AllWhite(cps) && s[..TrimLen(s)] == EncodeAll(cps)
    decreases |s|
  {
    hide WhiteLen, Encode, WhiteSpace, CharLen;
    var n := WhiteLen(s);
    if n == 0 {
      cps := [];
    } else {
      WhiteIsChar(s);
      var cp := DecodeChar(s);
      assert s == Encode(cp) + s[n..];
      WhiteLenOfEncoded(cp, s[n..]);
      var rest := TrimmedIsWhite(s[n..]);
      cps := [cp] + rest;
      assert cps[1..] == rest;
      assert s[..TrimLen(s)] == s[..n] + s[n..][..TrimLen(s[n..])];
    }
  }
}
