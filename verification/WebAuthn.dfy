/** webauthn.py: COSE keys, authenticator data and the assertion verifier. */
module WebAuthn {
  import opened Prelude
  import opened Cbor

  // ----- COSE keys -----

  datatype CoseKey =
    | Es256(x: bytes, y: bytes)
    | Rs256(n: bytes, e: bytes)
    | EdDsa(x: bytes)

  const UNSUPPORTED_KEY := WebAuthn("unsupported_key")

  const MALFORMED_INPUT := WebAuthn("malformed")

  const RSA_MIN_KEY_BITS := 2048

  function Pow2(k: nat): (p: nat)
    ensures p > 0
  {
    if k == 0 then 1 else 2 * Pow2(k - 1)
  }

  function Get(fields: map<int, Value>, key: int): Option<Value> {
    if key in fields then Some(fields[key]) else None
  }

  predicate IsBytes(v: Option<Value>) {
    v.Some? && v.value.Bytes?
  }

  /** `_parse_cose_key`, up to the point where the cryptography library takes over. */
  function ParseCoseKey(cose: bytes): Result<CoseKey> {
    match DecodeMap(cose)
    case None => Raise(MALFORMED_INPUT)
    case Some(fields) =>
      var alg := Get(fields, 3);
      if alg == Some(Int(-7)) then ParseEs256(fields)
      else if alg == Some(Int(-257)) then ParseRs256(fields)
      else if alg == Some(Int(-8)) then ParseEdDsa(fields)
      else Raise(UNSUPPORTED_KEY)
  }

  function ParseEs256(fields: map<int, Value>): Result<CoseKey> {
    var x, y := Get(fields, -2), Get(fields, -3);
    if Get(fields, 1) != Some(Int(2)) then Raise(UNSUPPORTED_KEY)
    else if Get(fields, -1) != Some(Int(1)) then Raise(UNSUPPORTED_KEY)
    else if !IsBytes(x) || |x.value.data| != 32 then Raise(MALFORMED_INPUT)
    else if !IsBytes(y) || |y.value.data| != 32 then Raise(MALFORMED_INPUT)
    else Ok(Es256(x.value.data, y.value.data))
  }

  function ParseRs256(fields: map<int, Value>): Result<CoseKey> {
    var n, e := Get(fields, -1), Get(fields, -2);
    if Get(fields, 1) != Some(Int(3)) then Raise(UNSUPPORTED_KEY)
    else if !IsBytes(n) then Raise(MALFORMED_INPUT)
    else if !IsBytes(e) then Raise(MALFORMED_INPUT)
    else if FromBigEndian(n.value.data) < Pow2(RSA_MIN_KEY_BITS - 1) then Raise(UNSUPPORTED_KEY)
    else Ok(Rs256(n.value.data, e.value.data))
  }

  function ParseEdDsa(fields: map<int, Value>): Result<CoseKey> {
    var x := Get(fields, -2);
    if Get(fields, 1) != Some(Int(1)) then Raise(UNSUPPORTED_KEY)
    else if Get(fields, -1) != Some(Int(6)) then Raise(UNSUPPORTED_KEY)
    else if !IsBytes(x) || |x.value.data| != 32 then Raise(MALFORMED_INPUT)
    else Ok(EdDsa(x.value.data))
  }

  /** `cose_key_es256`. */
  function CoseKeyEs256(x: bytes, y: bytes): Result<bytes> {
    if |x| != 32 || |y| != 32 then Raise(ValueError) else
    Ok([0xa5] + [0x01, 0x02] + [0x03, 0x26] + [0x20, 0x01] + [0x21, 0x58, 0x20] + x + [0x22, 0x58, 0x20] + y)
  }

  /** The CBOR item that `cose_key_es256` writes by hand. */
  function Es256Entries(x: bytes, y: bytes): Entries {
    Entry(UIntItem(Inline, 1), UIntItem(Inline, 2),
    Entry(UIntItem(Inline, 3), NIntItem(Inline, 6),
    Entry(NIntItem(Inline, 0), UIntItem(Inline, 1),
    Entry(NIntItem(Inline, 1), BytesItem(W1, x),
    Entry(NIntItem(Inline, 2), BytesItem(W1, y), Nil)))))
  }

  function Es256Fields(x: bytes, y: bytes): map<int, Value> {
    map[1 := Int(2), 3 := Int(-7), -1 := Int(1), -2 := Bytes(x), -3 := Bytes(y)]
  }

  lemma SmallItems(n: nat)
    requires n < 24
    ensures WellFormed(UIntItem(Inline, n)) && Encode(UIntItem(Inline, n)) == [n]
      && Meaning(UIntItem(Inline, n)) == Int(n)
    ensures WellFormed(NIntItem(Inline, n)) && Encode(NIntItem(Inline, n)) == [32 + n]
    ensures Meaning(NIntItem(Inline, n)) == Int(-1 - n)
  {
  }

  lemma CoordinateItem(data: bytes)
    requires |data| == 32
    ensures WellFormed(BytesItem(W1, data)) && Meaning(BytesItem(W1, data)) == Bytes(data)
    ensures Encode(BytesItem(W1, data)) == [0x58, 0x20] + data
  {
    assert Pow256(1) == 256 * Pow256(0);
    assert ToBigEndian(32, 1) == ToBigEndian(0, 0) + [32] == [32];
    assert EncodeHead(2, W1, 32) == [0x58, 0x20];
  }

  lemma CoordinateEntries(x: bytes, y: bytes, acc: map<int, Value>) returns (es: Entries)
    requires |x| == 32 && |y| == 32
    ensures es == Entry(NIntItem(Inline, 1), BytesItem(W1, x), Entry(NIntItem(Inline, 2), BytesItem(W1, y), Nil))
    ensures WellFormedEntries(es) && Count(es) == 2
    ensures EncodeEntries(es) == [33] + ([0x58, 0x20] + x) + ([34] + ([0x58, 0x20] + y) + [])
    ensures MeaningOfEntries(es, acc) == acc[-2 := Bytes(x)][-3 := Bytes(y)]
  {
    hide Encode, EncodeEntries, Meaning, MeaningOfEntries, WellFormed, WellFormedEntries, Count;
    SmallItems(1);
    SmallItems(2);
    CoordinateItem(x);
    CoordinateItem(y);
    NoRound([], 0, acc[-2 := Bytes(x)][-3 := Bytes(y)]);
    var last := EntryOf(NIntItem(Inline, 2), BytesItem(W1, y), Nil, acc[-2 := Bytes(x)]);
    es := EntryOf(NIntItem(Inline, 1), BytesItem(W1, x), last, acc);
  }

  lemma Es256EntriesEncoding(x: bytes, y: bytes)
    requires |x| == 32 && |y| == 32
    ensures var es := Es256Entries(x, y);
      && WellFormedEntries(es) && Count(es) == 5
      && [0xa5] + EncodeEntries(es) == CoseKeyEs256(x, y).value
      && MeaningOfEntries(es, map[]) == Es256Fields(x, y)
  {
    hide Encode, EncodeEntries, Meaning, MeaningOfEntries, WellFormed, WellFormedEntries, Count, CoseKeyEs256;
    SmallItems(0);
    SmallItems(1);
    SmallItems(2);
    SmallItems(3);
    SmallItems(6);
    Flattened(x, y);
    var m3 := map[1 := Int(2), 3 := Int(-7), -1 := Int(1)];
    var e4 := CoordinateEntries(x, y, m3);
    var e3 := EntryOf(NIntItem(Inline, 0), UIntItem(Inline, 1), e4, map[1 := Int(2), 3 := Int(-7)]);
    var e2 := EntryOf(UIntItem(Inline, 3), NIntItem(Inline, 6), e3, map[1 := Int(2)]);
    var e1 := EntryOf(UIntItem(Inline, 1), UIntItem(Inline, 2), e2, map[]);
    assert m3[-2 := Bytes(x)][-3 := Bytes(y)] == Es256Fields(x, y);
  }

  /** The bytes entry by entry are the bytes in a row. */
  lemma Flattened(x: bytes, y: bytes)
    requires |x| == 32 && |y| == 32
    ensures [0xa5] + ([1] + [2] + ([3] + [38] + ([32] + [1]
              + ([33] + ([0x58, 0x20] + x) + ([34] + ([0x58, 0x20] + y) + [])))))
         == CoseKeyEs256(x, y).value
  {
  }

  lemma Es256Encoding(x: bytes, y: bytes)
    requires |x| == 32 && |y| == 32
    ensures var item := MapItem(Inline, Es256Entries(x, y));
      && WellFormed(item)
      && Encode(item) == CoseKeyEs256(x, y).value
      && Meaning(item) == Map(Es256Fields(x, y))
  {
    Es256EntriesEncoding(x, y);
    hide EncodeEntries, MeaningOfEntries, WellFormedEntries, Count, Es256Entries;
    assert EncodeHead(5, Inline, 5) == [0xa5];
  }

  /** The hand-written COSE key decodes to its five fields, and the ES256 parser recovers the
      two coordinates it was made from. */
  lemma CoseKeyEs256RoundTrip(x: bytes, y: bytes)
    ensures CoseKeyEs256(x, y).Ok? <==> |x| == |y| == 32
    ensures CoseKeyEs256(x, y).Ok? ==>
      && DecodeMap(CoseKeyEs256(x, y).value) == Some(Es256Fields(x, y))
      && ParseCoseKey(CoseKeyEs256(x, y).value) == Ok(Es256(x, y))
  {
    if |x| == |y| == 32 {
      Es256Encoding(x, y);
      DecodeMapExact(CoseKeyEs256(x, y).value, Es256Fields(x, y));
    }
  }

  // ----- Authenticator data (section 6.1 of the WebAuthn specification) -----

  datatype AuthenticatorData = AuthenticatorData(rpIdHash: bytes, flags: byte, signCount: nat) {
    /** Bit 0x01. */
    predicate UserPresent() { flags % 2 == 1 }

    /** Bit 0x04. */
    predicate UserVerified() { flags / 4 % 2 == 1 }
  }

  function ParseAuthenticatorData(buf: bytes): Option<AuthenticatorData> {
    if |buf| < 37 then None
    else Some(AuthenticatorData(buf[..32], buf[32], FromBigEndian(buf[33..37])))
  }

  /** The sign count is a 32-bit number, and the parsed fields determine the first 37 bytes. */
  lemma AuthenticatorDataFields(buf: bytes)
    requires ParseAuthenticatorData(buf).Some?
    ensures var auth := ParseAuthenticatorData(buf).value;
      && auth.signCount < 0x1_0000_0000
      && buf[..37] == auth.rpIdHash + [auth.flags] + ToBigEndian(auth.signCount, 4)
  {
    BigEndianOnto(buf[33..37]);
    Pow256Of4();
    assert buf[..37] == buf[..32] + [buf[32]] + buf[33..37];
  }

  // ----- The verifier -----

  /** The object in clientDataJSON; a member that is absent or no string is None. */
  datatype ClientData =
    | NotJson
    | NotObject
    | Object(ty: Option<string>, origin: Option<string>, challenge: Option<string>)

  /** The libraries the verifier calls: SHA-256, UTF-8, JSON, base64url and the signature
      schemes. Nothing is assumed about them. */
  datatype Library = Library(
    sha256: bytes -> bytes,
    utf8: string -> bytes,
    parseClientData: bytes -> ClientData,
    decodeBase64Url: string -> Option<bytes>,
    acceptsKey: CoseKey -> bool,
    verifies: (CoseKey, bytes, bytes) -> bool)

  datatype Assertion = Assertion(
    authenticatorData: bytes,
    clientDataJson: bytes,
    signature: bytes,
    expectedChallenge: bytes,
    expectedOrigin: string)

  /** What the store keeps for a WebAuthn credential. */
  datatype Registration = Registration(cosePublicKey: bytes, signCount: int, rpId: string)

  function CheckClientData(lib: Library, a: Assertion): Option<Error> {
    match lib.parseClientData(a.clientDataJson)
    case NotJson => Some(MALFORMED_INPUT)
    case NotObject => Some(MALFORMED_INPUT)
    case Object(ty, origin, challenge) =>
      if ty != Some("webauthn.get") then Some(WebAuthn("type_mismatch"))
      else if origin != Some(a.expectedOrigin) then Some(WebAuthn("origin_mismatch"))
      else if challenge == None then Some(MALFORMED_INPUT)
      else match lib.decodeBase64Url(challenge.value)
        case None => Some(MALFORMED_INPUT)
        case Some(decoded) =>
          if decoded != a.expectedChallenge then Some(WebAuthn("challenge_mismatch")) else None
  }

  /** The counter rule of section 6.1.1: both zero, or strictly greater than the stored count. */
  predicate CounterAdvances(stored: int, incoming: nat) {
    (incoming == 0 && stored == 0) || incoming > stored
  }

  /** The form of the signature that is looked at before the library verifies it. */
  predicate HasShape(key: CoseKey, signature: bytes) {
    match key
    case Es256(_, _) => |signature| >= 8 && signature[0] == 0x30
    case Rs256(_, _) => true
    case EdDsa(_) => |signature| == 64
  }

  function CheckSignature(lib: Library, cose: bytes, a: Assertion): Option<Error> {
    match ParseCoseKey(cose)
    case Raise(e) => Some(e)
    case Ok(key) =>
      if !lib.acceptsKey(key) then Some(ValueError)
      else if HasShape(key, a.signature) && lib.verifies(key, a.signature,
          a.authenticatorData + lib.sha256(a.clientDataJson))
      then None else Some(WebAuthn("signature_invalid"))
  }

  /** `webauthn_verify_assertion` with its default flags: the new sign count, or the first
      check that fails. */
  function VerifyAssertion(lib: Library, reg: Registration, a: Assertion): Result<nat> {
    match CheckClientData(lib, a)
    case Some(e) => Raise(e)
    case None =>
      match ParseAuthenticatorData(a.authenticatorData)
      case None => Raise(MALFORMED_INPUT)
      case Some(auth) =>
        if auth.rpIdHash != lib.sha256(lib.utf8(reg.rpId)) then Raise(WebAuthn("rp_id_mismatch"))
        else if !auth.UserPresent() then Raise(WebAuthn("user_not_present"))
        else if !auth.UserVerified() then Raise(WebAuthn("user_not_verified"))
        else if !CounterAdvances(reg.signCount, auth.signCount) then Raise(WebAuthn("counter_regression"))
        else match CheckSignature(lib, reg.cosePublicKey, a)
          case Some(e) => Raise(e)
          case None => Ok(auth.signCount)
  }

  /** The client data is that of an assertion, for the expected origin and challenge. */
  predicate MatchesExpectations(lib: Library, a: Assertion) {
    var data := lib.parseClientData(a.clientDataJson);
    && data.Object? && data.ty == Some("webauthn.get") && data.origin == Some(a.expectedOrigin)
    && data.challenge.Some? && lib.decodeBase64Url(data.challenge.value) == Some(a.expectedChallenge)
  }

  /** The COSE key decodes to a map with the labels and values of that key: RFC 8152 section 13.1
      for ES256, RFC 8230 section 4 for RS256, RFC 8037 section 2 for EdDSA; an RSA modulus has at
      least 2048 bits. */
  predicate IsKey(cose: bytes, key: CoseKey) {
    var fields := DecodeMap(cose);
    && fields.Some?
    && var labels := fields.value;
       match key
       case Es256(x, y) =>
         && Maps(labels, 1, Int(2)) && Maps(labels, 3, Int(-7)) && Maps(labels, -1, Int(1))
         && Maps(labels, -2, Bytes(x)) && Maps(labels, -3, Bytes(y)) && |x| == 32 && |y| == 32
       case Rs256(n, e) =>
         && Maps(labels, 1, Int(3)) && Maps(labels, 3, Int(-257))
         && Maps(labels, -1, Bytes(n)) && Maps(labels, -2, Bytes(e)) && FromBigEndian(n) >= 128 * Pow256(255)
       case EdDsa(x) =>
         && Maps(labels, 1, Int(1)) && Maps(labels, 3, Int(-8)) && Maps(labels, -1, Int(6))
         && Maps(labels, -2, Bytes(x)) && |x| == 32
  }

  predicate Maps(labels: map<int, Value>, k: int, v: Value) {
    k in labels && labels[k] == v
  }

  /** ES256 signatures start like a DER sequence, EdDSA signatures have 64 bytes. */
  predicate HasForm(key: CoseKey, signature: bytes) {
    && (key.Es256? ==> |signature| >= 8 && signature[0] == 48)
    && (key.EdDsa? ==> |signature| == 64)
  }

  /** The registered key is acceptable and the signature over data and client data verifies. */
  predicate IsSignedBy(lib: Library, key: CoseKey, a: Assertion) {
    && HasForm(key, a.signature)
    && lib.verifies(key, a.signature, a.authenticatorData + lib.sha256(a.clientDataJson))
  }

  lemma {:induction false} Pow2OfBytes(k: nat)
    ensures Pow2(8 * k) == Pow256(k)
  {
    if k > 0 {
      Pow2OfBytes(k - 1);
      SevenBits(8 * (k - 1));
      assert Pow2(8 * k) == 2 * Pow2(8 * (k - 1) + 7);
    }
  }

  lemma SevenBits(k: nat)
    ensures Pow2(k + 7) == 128 * Pow2(k)
  {
    assert Pow2(k + 3) == 2 * Pow2(k + 2) == 4 * Pow2(k + 1) == 8 * Pow2(k);
    assert Pow2(k + 7) == 2 * Pow2(k + 6) == 4 * Pow2(k + 5) == 8 * Pow2(k + 4) == 16 * Pow2(k + 3);
  }

  lemma MinimalModulus()
    ensures Pow2(RSA_MIN_KEY_BITS - 1) == 128 * Pow256(255)
  {
    hide Pow2, Pow256;
    Pow2OfBytes(255);
    SevenBits(2040);
  }

  /** A key is read from COSE bytes exactly when they decode to a map with its labels, which
      determines the key. */
  lemma ParsedKeyExactly(cose: bytes, key: CoseKey)
    ensures ParseCoseKey(cose) == Ok(key) <==> IsKey(cose, key)
  {
    hide Pow2, Pow256, FromBigEndian, DecodeMap;
    MinimalModulus();
  }

  /** An assertion is accepted with a count exactly when its client data is for this ceremony, its
      authenticator data is for the registered relying party, has both flags and carries that
      count, the count is zero like the stored one or greater, and the registered key signed both. */
  lemma AcceptedAssertion(lib: Library, reg: Registration, a: Assertion, n: nat)
    ensures VerifyAssertion(lib, reg, a) == Ok(n) <==>
      && MatchesExpectations(lib, a)
      && |a.authenticatorData| >= 37
      && a.authenticatorData[..32] == lib.sha256(lib.utf8(reg.rpId))
      && a.authenticatorData[32] % 2 == 1 && a.authenticatorData[32] / 4 % 2 == 1
      && n < 0x1_0000_0000 && a.authenticatorData[33..37] == ToBigEndian(n, 4)
      && ((n == 0 && reg.signCount == 0) || n > reg.signCount)
      && exists key :: IsKey(reg.cosePublicKey, key) && lib.acceptsKey(key) && IsSignedBy(lib, key, a)
  {
    var cose := reg.cosePublicKey;
    SignedExactly(lib, cose, a);
    if |a.authenticatorData| >= 37 {
      CountIsPacked(a.authenticatorData, n);
    }
    hide ParseCoseKey, IsKey, IsSignedBy, FromBigEndian, ToBigEndian, CheckSignature;
  }

  lemma CountIsPacked(data: bytes, n: nat)
    requires |data| >= 37
    ensures FromBigEndian(data[33..37]) == n <==> n < 0x1_0000_0000 && data[33..37] == ToBigEndian(n, 4)
  {
    BigEndianOnto(data[33..37]);
    Pow256Of4();
    if n < 0x1_0000_0000 {
      BigEndianRoundTrip(n, 4);
    }
  }

  lemma SignedExactly(lib: Library, cose: bytes, a: Assertion)
    ensures CheckSignature(lib, cose, a).None?
       <==> exists key :: IsKey(cose, key) && lib.acceptsKey(key) && IsSignedBy(lib, key, a)
  {
    hide ParseCoseKey, IsKey;
    var parsed := ParseCoseKey(cose);
    forall key
      ensures parsed == Ok(key) <==> IsKey(cose, key)
    {
      ParsedKeyExactly(cose, key);
    }
  }

  /** The authenticator data is long enough and for the registered relying party. */
  predicate IsForParty(lib: Library, reg: Registration, a: Assertion) {
    |a.authenticatorData| >= 37 && a.authenticatorData[..32] == lib.sha256(lib.utf8(reg.rpId))
  }

  predicate HasBothFlags(a: Assertion)
    requires |a.authenticatorData| >= 37
  {
    a.authenticatorData[32] % 2 == 1 && a.authenticatorData[32] / 4 % 2 == 1
  }

  /** The counter rule decides: with client data, relying party and flags as they should be, a count
      that is not greater than the stored one is a regression unless both are zero, and otherwise
      only key and signature can still fail. */
  lemma RegressionExactly(lib: Library, reg: Registration, a: Assertion)
    requires MatchesExpectations(lib, a) && IsForParty(lib, reg, a) && HasBothFlags(a)
    ensures var n := FromBigEndian(a.authenticatorData[33..37]);
      && (VerifyAssertion(lib, reg, a) == Raise(WebAuthn("counter_regression"))
          <==> n <= reg.signCount && !(n == 0 && reg.signCount == 0))
      && ((exists key :: IsKey(reg.cosePublicKey, key) && lib.acceptsKey(key) && IsSignedBy(lib, key, a)) ==>
            (VerifyAssertion(lib, reg, a) == Ok(n) <==> (n == 0 && reg.signCount == 0) || n > reg.signCount))
  {
    SignedExactly(lib, reg.cosePublicKey, a);
    SignatureErrors(lib, reg.cosePublicKey, a);
    hide ParseCoseKey, IsKey, IsSignedBy, FromBigEndian, CheckSignature;
  }

  lemma SignatureErrors(lib: Library, cose: bytes, a: Assertion)
    ensures CheckSignature(lib, cose, a) != Some(WebAuthn("counter_regression"))
    ensures CheckSignature(lib, cose, a) == Some(WebAuthn("signature_invalid"))
       <==> exists key :: IsKey(cose, key) && lib.acceptsKey(key) && !IsSignedBy(lib, key, a)
    ensures CheckSignature(lib, cose, a) == Some(ValueError)
       <==> exists key :: IsKey(cose, key) && !lib.acceptsKey(key)
    ensures (forall key :: !IsKey(cose, key)) ==> CheckSignature(lib, cose, a) == Some(KeyFault(cose))
  {
    hide IsKey;
    var parsed := ParseCoseKey(cose);
    KeyErrorExactly(cose);
    forall key
      ensures parsed == Ok(key) <==> IsKey(cose, key)
    {
      ParsedKeyExactly(cose, key);
    }
    hide ParseCoseKey, KeyFault;
  }

  /** What is wrong with bytes that are no key: they are malformed when they are no map or when key
      type, algorithm and curve are those of a supported key, whose byte strings must then be
      missing or of the wrong length; everything else, a short RSA modulus too, is unsupported. */
  function KeyFault(cose: bytes): Error {
    var fields := DecodeMap(cose);
    if fields.None? then WebAuthn("malformed") else
    var labels := fields.value;
    if Maps(labels, 1, Int(2)) && Maps(labels, 3, Int(-7)) && Maps(labels, -1, Int(1)) then WebAuthn("malformed")
    else if Maps(labels, 1, Int(1)) && Maps(labels, 3, Int(-8)) && Maps(labels, -1, Int(6)) then WebAuthn("malformed")
    else if Maps(labels, 1, Int(3)) && Maps(labels, 3, Int(-257)) && !(HasBytes(labels, -1) && HasBytes(labels, -2))
    then WebAuthn("malformed")
    else WebAuthn("unsupported_key")
  }

  predicate HasBytes(labels: map<int, Value>, k: int) {
    k in labels && labels[k].Bytes?
  }

  lemma KeyErrorExactly(cose: bytes)
    ensures ParseCoseKey(cose).Raise? ==> ParseCoseKey(cose).error == KeyFault(cose)
  {
    hide Pow2, FromBigEndian, DecodeMap;
  }

  /** What is raised on the other checks, each when the ones before it pass. */
  lemma RefusedAssertion(lib: Library, reg: Registration, a: Assertion)
    ensures var data, r := lib.parseClientData(a.clientDataJson), VerifyAssertion(lib, reg, a);
      && (r == Raise(WebAuthn("type_mismatch")) <==> data.Object? && data.ty != Some("webauthn.get"))
      && (r == Raise(WebAuthn("origin_mismatch"))
          <==> data.Object? && data.ty == Some("webauthn.get") && data.origin != Some(a.expectedOrigin))
      && (r == Raise(WebAuthn("challenge_mismatch"))
          <==> data.Object? && data.ty == Some("webauthn.get") && data.origin == Some(a.expectedOrigin)
               && data.challenge.Some? && lib.decodeBase64Url(data.challenge.value).Some?
               && lib.decodeBase64Url(data.challenge.value).value != a.expectedChallenge)
      && (MatchesExpectations(lib, a) ==>
          && (r == Raise(WebAuthn("rp_id_mismatch"))
              <==> |a.authenticatorData| >= 37 && !IsForParty(lib, reg, a))
          && (r == Raise(WebAuthn("user_not_present"))
              <==> IsForParty(lib, reg, a) && a.authenticatorData[32] % 2 == 0)
          && (r == Raise(WebAuthn("user_not_verified"))
              <==> IsForParty(lib, reg, a) && a.authenticatorData[32] % 2 == 1
                   && a.authenticatorData[32] / 4 % 2 == 0)
          && (|a.authenticatorData| < 37 ==> r == Raise(WebAuthn("malformed"))))
      && (!MatchesExpectations(lib, a) ==>
            r in {Raise(WebAuthn("malformed")), Raise(WebAuthn("type_mismatch")), Raise(WebAuthn("origin_mismatch")),
                  Raise(WebAuthn("challenge_mismatch"))})
  {
    SignatureReasons(lib, reg.cosePublicKey, a);
    hide FromBigEndian, CheckSignature;
  }

  lemma SignatureReasons(lib: Library, cose: bytes, a: Assertion)
    ensures var e := CheckSignature(lib, cose, a);
      e.Some? ==> e.value in {ValueError, WebAuthn("malformed"), WebAuthn("unsupported_key"),
                              WebAuthn("signature_invalid")}
  {
    KeyErrorExactly(cose);
    hide ParseCoseKey;
  }

  lemma AcceptedCount(lib: Library, reg: Registration, a: Assertion)
    ensures var r := VerifyAssertion(lib, reg, a);
      r.Ok? ==> (r.value == 0 && reg.signCount == 0) || r.value > reg.signCount
  {
    if VerifyAssertion(lib, reg, a).Ok? {
      AcceptedAssertion(lib, reg, a, VerifyAssertion(lib, reg, a).value);
    }
  }

  lemma Pow256Of4()
    ensures Pow256(4) == 0x1_0000_0000
  {
    assert Pow256(1) == 256 && Pow256(2) == 0x1_0000 && Pow256(3) == 0x100_0000;
  }

  /** Replaying an accepted assertion against the advanced counter is refused as a regression
      exactly when its count is not zero; a zero count is accepted again, unchanged. */
  lemma ReplayIsRefusedExactlyWhenCounted(lib: Library, reg: Registration, a: Assertion)
    requires VerifyAssertion(lib, reg, a).Ok?
    ensures var n := VerifyAssertion(lib, reg, a).value;
      VerifyAssertion(lib, reg.(signCount := n), a)
        == if n > 0 then Raise(WebAuthn("counter_regression")) else Ok(0)
  {
  }
}
