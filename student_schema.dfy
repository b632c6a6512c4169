/** The password normalisation of the StudentCreate and StudentLogin request
    schemas. Both schemas carry the same validator, so it is defined once here
    and applies alike to a registration and to a login. A password is a
    sequence of Unicode scalar values; its size is that of its UTF-8 encoding. */
module StudentSchema {

  /** The body of POST /auth/register; its password has passed ValidatePassword. */
  datatype StudentCreate = StudentCreate(name: string, email: string, password: string)

  /** The body of POST /auth/login; its password has passed ValidatePassword. */
  datatype StudentLogin = StudentLogin(email: string, password: string)

  /** The input limit of the bcrypt hash, in bytes. */
  const MaxPasswordBytes: nat := 72

  /** The number of bytes UTF-8 uses to encode one scalar value. */
  function Utf8Width(c: char): (n: nat)
    ensures 1 <= n <= 4
    ensures n == 1 <==> c as int < 0x80
  {
    if c as int < 0x80 then 1
    else if c as int < 0x800 then 2
    else if c as int < 0x1_0000 then 3
    else 4
  }

  /** len(s.encode('utf-8')). */
  function Utf8Length(s: string): (n: nat)
    ensures |s| <= n <= 4 * |s|
  {
    if s == [] then 0 else Utf8Width(s[0]) + Utf8Length(s[1..])
  }

  predicate IsAscii(s: string)
  {
    forall i :: 0 <= i < |s| ==> s[i] as int < 0x80
  }

  function Min(a: int, b: int): int
  {
    if a <= b then a else b
  }

  /** validate_password: a password whose encoding is longer than 72 bytes is
      cut to its first 72 characters (v[:72]), any other is kept. */
  function ValidatePassword(v: string): (r: string)
    ensures r <= v
    ensures Utf8Length(v) <= MaxPasswordBytes ==> r == v
    ensures Utf8Length(v) > MaxPasswordBytes ==> r == v[..Min(|v|, MaxPasswordBytes)]
    ensures |r| <= MaxPasswordBytes || r == v
  {
    if Utf8Length(v) > MaxPasswordBytes then v[..Min(|v|, MaxPasswordBytes)] else v
  }

  /** The encoding of a concatenation is the concatenation of the encodings. */
  lemma {:induction false} Utf8LengthAppend(s: string, t: string)
    ensures Utf8Length(s + t) == Utf8Length(s) + Utf8Length(t)
  {
    if s == [] {
      assert s + t == t;
    } else {
      assert (s + t)[1..] == s[1..] + t;
      Utf8LengthAppend(s[1..], t);
    }
  }

  /** A prefix never encodes to more bytes than the whole. */
  lemma Utf8LengthPrefix(s: string, k: nat)
    requires k <= |s|
    ensures Utf8Length(s[..k]) <= Utf8Length(s)
  {
    assert s == s[..k] + s[k..];
    Utf8LengthAppend(s[..k], s[k..]);
  }

  /** ASCII characters are one byte each. */
  lemma {:induction false} AsciiUtf8Length(s: string)
    requires IsAscii(s)
    ensures Utf8Length(s) == |s|
  {
    if s != [] {
      assert IsAscii(s[1..]) by {
        forall i | 0 <= i < |s[1..]| ensures s[1..][i] as int < 0x80 {
          assert s[1..][i] == s[i + 1];
        }
      }
      AsciiUtf8Length(s[1..]);
    }
  }

  /** A string of n copies of c encodes to n times the width of c. */
  lemma {:induction false} RepeatUtf8Length(c: char, n: nat)
    ensures Utf8Length(seq(n, _ => c)) == n * Utf8Width(c)
  {
    if n > 0 {
      assert seq(n, _ => c)[1..] == seq(n - 1, _ => c);
      RepeatUtf8Length(c, n - 1);
    }
  }

  /** The validator is idempotent: a validated password validates to itself. */
  lemma ValidatePasswordIdempotent(v: string)
    ensures ValidatePassword(ValidatePassword(v)) == ValidatePassword(v)
  {
  }

  /** For an ASCII password the validator does keep within the 72-byte limit. */
  lemma AsciiPasswordFitsByteLimit(v: string)
    requires IsAscii(v)
    ensures Utf8Length(ValidatePassword(v)) <= MaxPasswordBytes
  {
    AsciiUtf8Length(v);
    var r := ValidatePassword(v);
    assert IsAscii(r) by {
      forall i | 0 <= i < |r| ensures r[i] as int < 0x80 {
        assert r[i] == v[i];
      }
    }
    AsciiUtf8Length(r);
  }

  /** The validator never lengthens the encoding, and a truncated password
      encodes to at most 4 bytes per kept character. */
  lemma ValidatePasswordShrinks(v: string)
    ensures Utf8Length(ValidatePassword(v)) <= Utf8Length(v)
    ensures Utf8Length(ValidatePassword(v)) <= 4 * MaxPasswordBytes || ValidatePassword(v) == v
  {
    Utf8LengthPrefix(v, |ValidatePassword(v)|);
    assert v[..|ValidatePassword(v)|] == ValidatePassword(v);
  }

  /** The truncation counts characters, not bytes: 73 copies of U+00E9 (146
      bytes) validate to 72 characters, which still encode to 144 bytes. */
  lemma ValidatedPasswordCanExceedByteLimit()
    ensures var v := seq(73, _ => 'é');
      Utf8Length(v) == 146 && Utf8Length(ValidatePassword(v)) == 144
  {
    var v := seq(73, _ => 'é');
    RepeatUtf8Length('é', 73);
    assert ValidatePassword(v) == seq(72, _ => 'é');
    RepeatUtf8Length('é', 72);
  }

  /** The truncation the validator's comment describes: the longest prefix of
      v whose UTF-8 encoding fits in cap bytes (cut at a character boundary). */
  function TruncateToByteLimit(v: string, cap: nat): (r: string)
    ensures r <= v
    ensures Utf8Length(r) <= cap
    ensures r == v || Utf8Length(v[..|r| + 1]) > cap
    decreases |v|
  {
    if v == [] || Utf8Width(v[0]) > cap then []
    else
      var rest := TruncateToByteLimit(v[1..], cap - Utf8Width(v[0]));
      assert ([v[0]] + rest)[1..] == rest;
      assert rest != v[1..] ==> v[..|rest| + 2][1..] == v[1..][..|rest| + 1];
      [v[0]] + rest
  }

  /** The corrected validator: cut to the 72-byte limit rather than to 72
      characters. */
  function ValidatePasswordToByteLimit(v: string): (r: string)
    ensures r <= v
    ensures Utf8Length(r) <= MaxPasswordBytes
    ensures Utf8Length(v) <= MaxPasswordBytes ==> r == v
  {
    if Utf8Length(v) > MaxPasswordBytes then TruncateToByteLimit(v, MaxPasswordBytes) else v
  }

  /** On ASCII input the corrected validator and the validator agree. */
  lemma CorrectedAgreesOnAscii(v: string)
    requires IsAscii(v)
    ensures ValidatePasswordToByteLimit(v) == ValidatePassword(v)
  {
    AsciiUtf8Length(v);
    if Utf8Length(v) > MaxPasswordBytes {
      var r := TruncateToByteLimit(v, MaxPasswordBytes);
      assert IsAscii(r) by {
        forall i | 0 <= i < |r| ensures r[i] as int < 0x80 {
          assert r[i] == v[i];
        }
      }
      AsciiUtf8Length(r);
      assert |r| <= MaxPasswordBytes;
      if |r| < MaxPasswordBytes {
        var w := v[..|r| + 1];
        assert IsAscii(w) by {
          forall i | 0 <= i < |w| ensures w[i] as int < 0x80 {
            assert w[i] == v[i];
          }
        }
        AsciiUtf8Length(w);
      }
      assert r == v[..|r|];
    }
  }
}
