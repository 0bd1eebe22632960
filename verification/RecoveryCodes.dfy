/**
 * Recovery codes: every code that can be generated has the shape that the
 * audit redactor looks for, so no code survives redaction as a whole token.
 */
module RecoveryCodes {
  import opened Bytes
  import opened Hex
  import opened RedactionSpec
  import T = RedactionTokens
  import P = RedactionPasses

  const RECOVERY_CODE_BYTES: nat := 10

  /** Ten bytes in hexadecimal, in groups of four, three and three. */
  function Grouped(bytes: seq<byte>): string
    requires |bytes| == RECOVERY_CODE_BYTES
  {
    Encode(bytes[..4]) + "-" + Encode(bytes[4..7]) + "-" + Encode(bytes[7..])
  }

  /** What has been written before byte `n` of the code. */
  function Partial(bytes: seq<byte>, n: nat): string
    requires |bytes| == RECOVERY_CODE_BYTES && n <= |bytes|
  {
    if n <= 4 then Encode(bytes[..n])
    else if n <= 7 then Encode(bytes[..4]) + "-" + Encode(bytes[4..n])
    else Encode(bytes[..4]) + "-" + Encode(bytes[4..7]) + "-" + Encode(bytes[7..n])
  }

  lemma EncodeNext(bytes: seq<byte>, from: nat, n: nat)
    requires from <= n < |bytes|
    ensures Encode(bytes[from..n + 1]) == Encode(bytes[from..n]) + HexByte(bytes[n])
    ensures Encode(bytes[n..n]) == ""
  {
    assert bytes[from..n + 1] == bytes[from..n] + [bytes[n]];
    EncodeAppend(bytes[from..n], bytes[n]);
  }

  /** The generator writes the shape the redactor recognizes, whatever bytes it draws. */
  lemma GroupedIsRecoveryCode(bytes: seq<byte>)
    requires |bytes| == RECOVERY_CODE_BYTES
    ensures IsRecoveryCode(Grouped(bytes))
  {
    hide Encode;
    var a, b, c := Encode(bytes[..4]), Encode(bytes[4..7]), Encode(bytes[7..]);
    var code := Grouped(bytes);
    assert |a| == 8 && |b| == 6 && |c| == 6;
    forall i | 0 <= i < 22 ensures i == 8 || i == 15 || IsHexDigit(code[i]) {
      if i < 8 {
        assert code[i] == a[i];
      } else if 8 < i < 15 {
        assert code[i] == b[i - 9];
      } else if 15 < i {
        assert code[i] == c[i - 16];
      }
    }
  }

  method GenerateRecoveryCode(bytes: seq<byte>) returns (code: string)
    requires |bytes| == RECOVERY_CODE_BYTES
    ensures code == Grouped(bytes) && IsRecoveryCode(code)
  {
    hide Encode, HexByte, IsRecoveryCode;
    code := "";
    var index := 0;
    assert bytes[..0] == bytes[0..0];
    EncodeNext(bytes, 0, 0);
    while index < |bytes|
      invariant 0 <= index <= |bytes|
      invariant code == Partial(bytes, index)
    {
      assert bytes[..index] == bytes[0..index] && bytes[..index + 1] == bytes[0..index + 1];
      EncodeNext(bytes, if index < 4 then 0 else if index < 7 then 4 else 7, index);
      if index == 4 || index == 7 {
        code := code + "-";
      }
      code := code + HexByte(bytes[index]);
      index := index + 1;
    }
    assert bytes[7..10] == bytes[7..];
    GroupedIsRecoveryCode(bytes);
  }

  /** Without its hyphens, a code is the hexadecimal form of its ten bytes. */
  lemma GroupedHoldsBytes(bytes: seq<byte>)
    requires |bytes| == RECOVERY_CODE_BYTES
    ensures |Grouped(bytes)| == 22
    ensures Grouped(bytes)[..8] + Grouped(bytes)[9..15] + Grouped(bytes)[16..] == Encode(bytes)
  {
    hide Encode;
    var a, b, c := bytes[..4], bytes[4..7], bytes[7..];
    EncodeConcat(a + b, c);
    EncodeConcat(a, b);
    assert bytes == a + b + c;
    var s := Grouped(bytes);
    assert s[..8] == Encode(a) && s[9..15] == Encode(b) && s[16..] == Encode(c);
  }

  lemma CodeIsToken(code: string)
    requires IsRecoveryCode(code)
    ensures forall i | 0 <= i < |code| :: IsToken(code[i])
  {
  }

  /** A generated code between bytes outside tokens is replaced by the mark. */
  lemma {:induction false} GeneratedCodeReplaced(before: string, bytes: seq<byte>, after: string)
    requires |bytes| == RECOVERY_CODE_BYTES
    requires before == "" || !IsToken(before[|before| - 1])
    requires after == "" || !IsToken(after[0])
    ensures RedactTokens(before + Grouped(bytes) + after) == RedactTokens(before) + REDACTION + RedactTokens(after)
  {
    hide RedactTokens, Grouped;
    GroupedIsRecoveryCode(bytes);
    CodeIsToken(Grouped(bytes));
    T.SensitiveTokenReplaced(before, Grouped(bytes), after);
  }

  /** No generated code stands as a whole token in any redacted text. */
  lemma NoGeneratedCodeSurvives(text: string, bytes: seq<byte>, i: nat)
    requires |bytes| == RECOVERY_CODE_BYTES
    requires i + 22 <= |Redact(text)| && Redact(text)[i..i + 22] == Grouped(bytes)
    ensures (0 < i && IsToken(Redact(text)[i - 1])) || (i + 22 < |Redact(text)| && IsToken(Redact(text)[i + 22]))
  {
    hide Redact, Grouped;
    var o := Redact(text);
    P.RedactedIsClean(text);
    GroupedIsRecoveryCode(bytes);
    CodeIsToken(Grouped(bytes));
    forall j | i <= j < i + 22 ensures IsToken(o[j]) {
      assert o[j] == Grouped(bytes)[j - i];
    }
    assert IsSensitiveToken(o[i..i + 22]);
    assert !T.TokenRun(o, i, i + 22);
  }
}
