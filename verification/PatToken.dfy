/** Unpadded base64url (section 5 of RFC 4648) and the wire format of personal access tokens. */
module PatToken {
  import opened Prelude

  // ----- base64url -----

  predicate IsBase64UrlChar(c: char) {
    'A' <= c <= 'Z' || 'a' <= c <= 'z' || '0' <= c <= '9' || c == '-' || c == '_'
  }

  type sextet = n: int | 0 <= n < 64

  function CharOf(n: sextet): (c: char)
    ensures IsBase64UrlChar(c)
  {
    if n < 26 then 'A' + n as char
    else if n < 52 then 'a' + (n - 26) as char
    else if n < 62 then '0' + (n - 52) as char
    else if n == 62 then '-'
    else '_'
  }

  function IndexOf(c: char): (n: sextet)
    requires IsBase64UrlChar(c)
  {
    if 'A' <= c <= 'Z' then c as int - 'A' as int
    else if 'a' <= c <= 'z' then c as int - 'a' as int + 26
    else if '0' <= c <= '9' then c as int - '0' as int + 52
    else if c == '-' then 62
    else 63
  }

  /** The alphabet in the order of its values (table 2 of RFC 4648): the upper case letters, the lower
      case letters, the digits, the hyphen and the underscore; and it is all of it. */
  lemma AlphabetInOrder(n: sextet, c: char)
    ensures CharOf(0) == 'A' && CharOf(26) == 'a' && CharOf(52) == '0' && CharOf(62) == '-' && CharOf(63) == '_'
    ensures n !in {25, 51, 61, 62, 63} ==> CharOf(n + 1) as int == CharOf(n) as int + 1
    ensures IsBase64UrlChar(c) <==> exists k: sextet :: CharOf(k) == c
  {
    if IsBase64UrlChar(c) {
      assert CharOf(IndexOf(c)) == c;
    }
  }

  lemma IndexOfCharOf(n: sextet)
    ensures IndexOf(CharOf(n)) == n
  {
  }

  /** The sextets of a byte string; a final group of one or two bytes gives two or three. */
  function Sextets(b: bytes): (s: seq<sextet>)
    ensures |s| == (4 * |b| + 2) / 3
  {
    if |b| == 0 then []
    else if |b| == 1 then [b[0] / 4, b[0] % 4 * 16]
    else if |b| == 2 then [b[0] / 4, b[0] % 4 * 16 + b[1] / 16, b[1] % 16 * 4]
    else
      var rest := Sextets(b[3..]);
      [b[0] / 4, b[0] % 4 * 16 + b[1] / 16, b[1] % 16 * 4 + b[2] / 64, b[2] % 64] + rest
  }

  /** The inverse of `Sextets` on its image. */
  function FromSextets(s: seq<sextet>): bytes {
    if |s| < 2 then []
    else if |s| == 2 then [Byte0(s[0], s[1])]
    else if |s| == 3 then [Byte0(s[0], s[1]), Byte1(s[1], s[2])]
    else [Byte0(s[0], s[1]), Byte1(s[1], s[2]), Byte2(s[2], s[3])] + FromSextets(s[4..])
  }

  function Byte0(s0: int, s1: int): byte
    requires 0 <= s0 < 64 && 0 <= s1 < 64
  {
    s0 * 4 + s1 / 16
  }

  function Byte1(s1: int, s2: int): byte
    requires 0 <= s1 < 64 && 0 <= s2 < 64
  {
    s1 % 16 * 16 + s2 / 4
  }

  function Byte2(s2: int, s3: int): byte
    requires 0 <= s2 < 64 && 0 <= s3 < 64
  {
    s2 % 4 * 64 + s3
  }

  lemma GroupRoundTrip(b0: byte, b1: byte, b2: byte)
    ensures Byte0(b0 / 4, b0 % 4 * 16 + b1 / 16) == b0
    ensures Byte1(b0 % 4 * 16 + b1 / 16, b1 % 16 * 4 + b2 / 64) == b1
    ensures Byte2(b1 % 16 * 4 + b2 / 64, b2 % 64) == b2
  {
  }

  lemma {:induction false} FromSextetsOfSextets(b: bytes)
    ensures FromSextets(Sextets(b)) == b
  {
    hide Byte0, Byte1, Byte2;
    if |b| == 1 {
      GroupRoundTrip(b[0], 0, 0);
    } else if |b| == 2 {
      GroupRoundTrip(b[0], b[1], 0);
    } else if |b| >= 3 {
      GroupRoundTrip(b[0], b[1], b[2]);
      FromSextetsOfSextets(b[3..]);
      assert Sextets(b)[4..] == Sextets(b[3..]);
      assert b == [b[0], b[1], b[2]] + b[3..];
    }
  }

  /** `urlsafe_b64encode(b).rstrip(b"=")`. */
  function Encode(b: bytes): (s: string)
    ensures |s| == (4 * |b| + 2) / 3
    ensures forall c :: c in s ==> IsBase64UrlChar(c)
  {
    var s := Sextets(b);
    seq(|s|, i requires 0 <= i < |s| => CharOf(s[i]))
  }

  function Decode(s: string): bytes
    requires forall c :: c in s ==> IsBase64UrlChar(c)
  {
    FromSextets(seq(|s|, i requires 0 <= i < |s| => IndexOf(s[i])))
  }

  /** The encoding loses nothing. */
  lemma DecodeEncode(b: bytes)
    ensures Decode(Encode(b)) == b
  {
    var s, e := Sextets(b), Encode(b);
    forall i | 0 <= i < |s|
      ensures IndexOf(e[i]) == s[i]
    {
      IndexOfCharOf(s[i]);
    }
    assert seq(|e|, i requires 0 <= i < |e| => IndexOf(e[i])) == s;
    FromSextetsOfSextets(b);
  }

  function ByteAt(b: bytes, i: nat): byte {
    if i < |b| then b[i] else 0
  }

  /** The 24-bit number of a group of three bytes; missing bytes are zero. */
  function GroupAt(b: bytes, i: nat): nat {
    var b0: int, b1: int, b2: int := ByteAt(b, i), ByteAt(b, i + 1), ByteAt(b, i + 2);
    b0 * 0x1_0000 + b1 * 0x100 + b2
  }

  lemma HighDigits(b0: int, b1: int, b2: int)
    requires 0 <= b0 < 256 && 0 <= b1 < 256 && 0 <= b2 < 256
    ensures var n := b0 * 0x1_0000 + b1 * 0x100 + b2;
      n / 0x4_0000 == b0 / 4 && n / 0x1000 % 64 == b0 % 4 * 16 + b1 / 16
  {
    var n := b0 * 0x1_0000 + b1 * 0x100 + b2;
    var q, r := b0 / 4, b0 % 4;
    assert b0 == q * 4 + r;
    assert n / 0x1000 == b0 * 16 + b1 / 16 == q * 64 + (r * 16 + b1 / 16);
  }

  lemma LowDigits(b0: int, b1: int, b2: int)
    requires 0 <= b0 < 256 && 0 <= b1 < 256 && 0 <= b2 < 256
    ensures var n := b0 * 0x1_0000 + b1 * 0x100 + b2;
      n / 0x40 % 64 == b1 % 16 * 4 + b2 / 64 && n % 64 == b2 % 64
  {
    var n := b0 * 0x1_0000 + b1 * 0x100 + b2;
    var q, r := b1 / 16, b1 % 16;
    assert b1 == q * 16 + r;
    assert n / 0x40 == b0 * 0x400 + b1 * 4 + b2 / 64 == (b0 * 16 + q) * 64 + (r * 4 + b2 / 64);
  }

  lemma FirstGroup(b: bytes, i: nat)
    requires i < 4 && i < |Sextets(b)|
    ensures var b0: int, b1: int, b2: int := ByteAt(b, 0), ByteAt(b, 1), ByteAt(b, 2);
      Sextets(b)[i] == if i == 0 then b0 / 4 else if i == 1 then b0 % 4 * 16 + b1 / 16
                       else if i == 2 then b1 % 16 * 4 + b2 / 64 else b2 % 64
  {
  }

  /** Every three bytes, as a number of 24 bits, are written as four digits to the base 64, the highest
      first; a last group of one or two bytes is filled up with zeros and keeps two or three digits. */
  lemma {:induction false} EncodedGroups(b: bytes, i: nat)
    requires i < |Encode(b)|
    ensures var n := GroupAt(b, i / 4 * 3);
      Encode(b)[i] == CharOf(if i % 4 == 0 then n / 0x4_0000 % 64 else if i % 4 == 1 then n / 0x1000 % 64
                             else if i % 4 == 2 then n / 0x40 % 64 else n % 64)
  {
    SextetsOfGroups(b, i);
    hide CharOf, GroupAt, Sextets;
  }

  /** The digits of a 24-bit number to the base 64, the highest first. */
  function DigitOf(n: nat, k: nat): nat {
    if k == 0 then n / 0x4_0000 % 64 else if k == 1 then n / 0x1000 % 64
    else if k == 2 then n / 0x40 % 64 else n % 64
  }

  lemma {:induction false} SextetsOfGroups(b: bytes, i: nat)
    requires i < |Sextets(b)|
    ensures Sextets(b)[i] == DigitOf(GroupAt(b, i / 4 * 3), i % 4)
    decreases |b|
  {
    if i < 4 {
      hide Sextets, ByteAt;
      FirstGroup(b, i);
      HighDigits(ByteAt(b, 0), ByteAt(b, 1), ByteAt(b, 2));
      LowDigits(ByteAt(b, 0), ByteAt(b, 1), ByteAt(b, 2));
    } else {
      hide Sextets, GroupAt, DigitOf;
      LaterGroup(b, i);
      SextetsOfGroups(b[3..], i - 4);
    }
  }

  lemma LaterGroup(b: bytes, i: nat)
    requires 4 <= i < |Sextets(b)|
    ensures |b| >= 3 && i - 4 < |Sextets(b[3..])| && Sextets(b)[i] == Sextets(b[3..])[i - 4]
    ensures (i - 4) % 4 == i % 4 && GroupAt(b[3..], (i - 4) / 4 * 3) == GroupAt(b, i / 4 * 3)
  {
    assert i / 4 * 3 == (i - 4) / 4 * 3 + 3;
  }

  // ----- Tokens -----

  const SECRET_BYTES := 32

  const MAX_SECRET_LENGTH := 256

  predicate IsHex(c: char) {
    '0' <= c <= '9' || 'a' <= c <= 'f'
  }

  /** What `generate("pat")` returns: "pat_" and 32 hexadecimal digits. */
  predicate IsPatId(id: string) {
    |id| == 36 && id[..4] == "pat_" && forall i :: 4 <= i < 36 ==> IsHex(id[i])
  }

  predicate IsSecret(s: string) {
    s != "" && forall c :: c in s ==> IsBase64UrlChar(c)
  }

  /** A full match of the token pattern. */
  predicate FullyMatches(t: string) {
    |t| >= 37 && IsPatId(t[..36]) && t[36] == '_' && IsSecret(t[37..])
  }

  /** `is_structurally_valid_pat_token`: Python's `$` also matches before a final newline. */
  predicate StructurallyValid(t: string) {
    FullyMatches(t) || (t != "" && Last(t) == '\n' && FullyMatches(t[..|t| - 1]))
  }

  function Token(id: string, secret: string): string {
    id + "_" + secret
  }

  /** Splitting by position recovers both parts, even when the secret contains '_'. */
  lemma TokenParts(id: string, secret: string)
    requires |id| == 36
    ensures var t := Token(id, secret);
      |t| == 37 + |secret| && t[..36] == id && t[36] == '_' && t[37..] == secret
  {
  }

  /** What passes the structural check, read by position: "pat_", 32 hexadecimal digits, an underscore,
      then characters of the alphabet, one at least, and at most one newline after them. */
  lemma StructurallyValidExactly(t: string)
    ensures StructurallyValid(t) <==>
      && |t| >= 38 && t[..4] == "pat_" && t[36] == '_' && t[37] != '\n'
      && (forall i :: 4 <= i < 36 ==> t[i] in "0123456789abcdef")
      && (forall i :: 37 <= i < |t| ==> IsBase64UrlChar(t[i]) || (i == |t| - 1 && t[i] == '\n'))
  {
    if |t| >= 38 {
      PrefixExactly(t);
      SecretExactly(t);
      if |t| >= 39 {
        var u := t[..|t| - 1];
        PrefixExactly(u);
        SecretExactly(u);
        assert u[..4] == t[..4];
      }
    }
    hide IsBase64UrlChar, IsPatId, IsSecret;
  }

  lemma PrefixExactly(t: string)
    requires |t| >= 38
    ensures IsPatId(t[..36]) <==> t[..4] == "pat_" && forall i :: 4 <= i < 36 ==> t[i] in "0123456789abcdef"
  {
    assert t[..36][..4] == t[..4];
    forall i | 4 <= i < 36
      ensures IsHex(t[..36][i]) <==> t[i] in "0123456789abcdef"
    {
    }
    hide IsHex;
  }

  lemma SecretExactly(t: string)
    requires |t| >= 38
    ensures IsSecret(t[37..]) <==> forall i :: 37 <= i < |t| ==> IsBase64UrlChar(t[i])
  {
    hide IsBase64UrlChar;
    forall i | 37 <= i < |t|
      ensures t[i] in t[37..]
    {
      assert t[37..][i - 37] == t[i];
    }
  }

  /** Every structurally valid token is an identifier, an underscore and the rest, and it is
      a full match exactly when the rest has no newline at its end. */
  lemma StructurallyValidParts(t: string)
    requires StructurallyValid(t)
    ensures |t| >= 38 && IsPatId(t[..36]) && t == Token(t[..36], t[37..])
    ensures IsSecret(t[37..]) <==> Last(t) != '\n'
  {
    if FullyMatches(t) {
      assert Last(t) == Last(t[37..]) && Last(t[37..]) in t[37..];
    } else {
      var u := t[..|t| - 1];
      assert u[..36] == t[..36];
      assert Last(t[37..]) in t[37..];
    }
  }

  /** A minted token passes the structural check, its secret has 43 characters, and the two
      parts and the 32 random bytes can be read back. */
  lemma MintedToken(id: string, raw: bytes)
    requires IsPatId(id) && |raw| == SECRET_BYTES
    ensures var secret := Encode(raw); var t := Token(id, secret);
      && |secret| == 43 && IsSecret(secret)
      && StructurallyValid(t) && t[..36] == id && t[37..] == secret
      && Decode(secret) == raw
  {
    TokenParts(id, Encode(raw));
    DecodeEncode(raw);
  }

  /** Tokens of different identifiers or different random bytes differ. */
  lemma TokensAreDistinct(id: string, raw: bytes, id': string, raw': bytes)
    requires IsPatId(id) && |raw| == SECRET_BYTES && IsPatId(id') && |raw'| == SECRET_BYTES
    ensures Token(id, Encode(raw)) == Token(id', Encode(raw')) <==> id == id' && raw == raw'
  {
    MintedToken(id, raw);
    MintedToken(id', raw');
  }
}
