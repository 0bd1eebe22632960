/**
 * What the key/value pass looks for, told by positions and written-out bytes
 * and names: byte classes, sensitive keys, and the delimiter after a key.
 */
module KeyForms {
  import opened Bytes
  import opened RedactionSpec

  const BLANKS: string := " \t\n\U{C}\r"

  /** The letters and digits, by their numbers in ASCII. */
  predicate Capital(c: char) {
    65 <= c as int <= 90
  }

  predicate Small(c: char) {
    97 <= c as int <= 122
  }

  predicate Numeral(c: char) {
    48 <= c as int <= 57
  }

  /** Every byte class of the scanners, byte by byte. */
  lemma ByteClasses(c: char)
    ensures IsSpace(c) <==> c in BLANKS
    ensures IsIdentifier(c) <==> Capital(c) || Small(c) || Numeral(c) || c in "_-"
    ensures IsToken(c) <==> Capital(c) || Small(c) || Numeral(c) || c in "-_.:"
    ensures IsHexDigit(c) <==> Numeral(c) || c in "abcdefABCDEF"
    ensures IsBare(c) <==> c !in BLANKS && c !in ",;"
    ensures IsQuote(c) <==> c in "\"'"
    ensures IsDelimiter(c) <==> c in ":="
  {
  }

  // -------------------------------------------------------------- sensitive keys

  /** The byte `c` of a key stands for the byte `d` of a name: a capital for its letter, a hyphen for an underscore. */
  predicate Spells(c: char, d: char) {
    if Capital(c) then c as int + 32 == d as int else if c == '-' then d == '_' else c == d
  }

  predicate SpelledOut(word: string, name: string) {
    |word| == |name| && forall i | 0 <= i < |name| :: Spells(word[i], name[i])
  }

  /** The key is the name, in any case and with either separator, or ends in a separator and the name. */
  predicate EndsInName(key: string, name: string) {
    |name| <= |key| &&
    SpelledOut(key[|key| - |name|..], name) && (|key| == |name| || key[|key| - |name| - 1] in "_-")
  }

  /** The names that keys are compared with. */
  lemma SensitiveNames(name: string)
    ensures name in SENSITIVE_KEYS <==>
            name in {"authorization", "cookie", "set_cookie", "password", "secret", "token", "session_token",
                     "reconnect_token", "enrollment_token", "sunbolt_agent_enrollment_token", "credential_secret",
                     "credential_proof", "node_credential", "node_credentials", "recovery_code", "recovery_codes",
                     "passkey_credential", "credential_id", "allowed_credential_ids", "public_key", "challenge",
                     "challenge_id", "raw_id", "attestation_object", "client_data_json", "authenticator_data",
                     "signature", "user_handle"}
  {
  }

  lemma SpellsWhen(c: char, d: char)
    ensures Spells(c, d) <==> NormalizeByte(c) == d
  {
  }

  lemma SpelledOutWhen(word: string, name: string)
    ensures SpelledOut(word, name) <==> NormalizeKey(word) == name
  {
    hide Spells, NormalizeByte;
    if |word| == |name| {
      forall i | 0 <= i < |name| ensures Spells(word[i], name[i]) <==> NormalizeKey(word)[i] == name[i] {
        SpellsWhen(word[i], name[i]);
      }
    }
  }

  lemma NormalizeSuffix(key: string, n: nat)
    requires n <= |key|
    ensures NormalizeKey(key)[n..] == NormalizeKey(key[n..])
    ensures 0 < n ==> NormalizeKey(key)[n - 1..] == [NormalizeByte(key[n - 1])] + NormalizeKey(key)[n..]
  {
  }

  lemma EndsInNameWhen(key: string, name: string)
    ensures EndsInName(key, name) <==> NormalizeKey(key) == name || EndsWith(NormalizeKey(key), "_" + name)
  {
    hide Spells, SpelledOut, NormalizeKey;
    var k := NormalizeKey(key);
    if |name| <= |key| {
      var n := |key| - |name|;
      SpelledOutWhen(key[n..], name);
      NormalizeSuffix(key, n);
      assert n == 0 ==> key[n..] == key;
      assert 0 < n && k[n - 1..] == "_" + name ==> k[n..] == k[n - 1..][1..] == name;
    }
  }

  /** A key is sensitive exactly when it ends in one of the names. */
  lemma SensitiveExactlyWhen(key: string)
    ensures IsSensitiveKey(NormalizeKey(key)) <==> exists name | name in SENSITIVE_KEYS :: EndsInName(key, name)
  {
    hide NormalizeKey, EndsInName, EndsWith;
    forall name | name in SENSITIVE_KEYS
      ensures EndsInName(key, name) <==> NormalizeKey(key) == name || EndsWith(NormalizeKey(key), "_" + name)
    {
      EndsInNameWhen(key, name);
    }
  }

  // ------------------------------------------------------------------ delimiters

  /** Blanks, of which one may be a double quote. */
  predicate BlanksAndQuote(text: string, from: nat, to: nat) {
    from <= to <= |text| &&
    exists q: nat | from <= q <= to ::
      (q < to ==> text[q] == '"') && forall j | from <= j < to && j != q :: text[j] in BLANKS
  }

  /** The byte at `i` is a colon or an equals sign, and blanks and at most one double quote come before it. */
  predicate DelimiterAt(text: string, from: nat, i: nat) {
    i < |text| && text[i] in ":=" && BlanksAndQuote(text, from, i)
  }

  lemma DelimiterInSuffix(text: string, from: nat, i: nat)
    requires from <= i < |text|
    ensures DelimiterAt(text, from, i) <==> DelimiterAt(text[from..], 0, i - from)
  {
    var u := text[from..];
    if DelimiterAt(text, from, i) {
      var q: nat :| from <= q <= i && (q < i ==> text[q] == '"') &&
                    forall j | from <= j < i && j != q :: text[j] in BLANKS;
      var p := q - from;
      assert p < i - from ==> u[p] == '"';
      forall j | 0 <= j < i - from && j != p ensures u[j] in BLANKS {
        assert u[j] == text[from + j];
      }
    }
    if DelimiterAt(u, 0, i - from) {
      var p: nat :| 0 <= p <= i - from && (p < i - from ==> u[p] == '"') &&
                    forall j | 0 <= j < i - from && j != p :: u[j] in BLANKS;
      var q := from + p;
      forall j | from <= j < i && j != q ensures text[j] in BLANKS {
        assert text[j] == u[j - from];
      }
    }
  }

  lemma ProbeFindsDelimiter(u: string)
    requires Delimiter(u).Span?
    ensures DelimiterAt(u, 0, Delimiter(u).start)
  {
    var a, i := Lead(IsSpace, u), DelimiterProbe(u);
    forall c: char {
      ByteClasses(c);
    }
    var q := if a < i then a else i;
    forall j | 0 <= j < i && j != q ensures u[j] in BLANKS {
      if a < j {
        assert u[j] == u[a + 1..][j - (a + 1)];
      }
    }
  }

  lemma BlanksAreSpaces(u: string, from: nat, to: nat)
    requires from <= to <= |u| && forall j | from <= j < to :: u[j] in BLANKS
    requires to < |u| ==> u[to] !in BLANKS
    ensures Lead(IsSpace, u[from..]) == to - from
  {
    var v := u[from..];
    forall j | 0 <= j < to - from ensures IsSpace(v[j]) {
      assert v[j] == u[from + j];
    }
    LeadUnique(IsSpace, v, to - from);
  }

  lemma DelimiterIsProbed(u: string, i: nat)
    requires DelimiterAt(u, 0, i)
    ensures DelimiterProbe(u) == i
  {
    var q: nat :| 0 <= q <= i && (q < i ==> u[q] == '"') && forall j | 0 <= j < i && j != q :: u[j] in BLANKS;
    hide Lead;
    assert u[0..] == u;
    BlanksAreSpaces(u, 0, q);
    if q < i {
      BlanksAreSpaces(u, q + 1, i);
    }
  }

  /** The delimiter of a key lies after blanks, or after blanks, one double quote and blanks, and nowhere else. */
  lemma DelimiterExactlyWhen(u: string, i: nat)
    ensures Delimiter(u) == Span(i, i + 1) <==> DelimiterAt(u, 0, i)
  {
    hide DelimiterProbe, BlanksAndQuote;
    ByteClasses(if i < |u| then u[i] else ' ');
    if Delimiter(u) == Span(i, i + 1) {
      ProbeFindsDelimiter(u);
    }
    if DelimiterAt(u, 0, i) {
      DelimiterIsProbed(u, i);
    }
  }
}
