/** Vocabulary shared by every module: results, the errors the SDK raises, bytes and a
    few Python library operations. */
module Prelude {

  datatype Option<+T> = None | Some(value: T)

  datatype Result<+T> = Ok(value: T) | Raise(error: Error)

  /** The exception classes of errors.py and webauthn.py, with the `reason` where callers
      dispatch on it, and the built-in exceptions that escape the SDK. */
  datatype Error =
    | NotFound
    | Precondition(reason: string)
    | AlreadyTerminal
    | CredentialNotActive
    | CredentialTypeMismatch
    | DuplicateCredential
    | InvalidCredential
    | InvalidToken
    | SessionExpired
    | InvalidPatToken
    | PatExpired
    | PatRevoked
    | WebAuthn(reason: string)
    | ValueError
    | StructError
    | ZeroDivisionError
    | KeyError

  type byte = n: int | 0 <= n < 256

  type bytes = seq<byte>

  /** Number of bytes of `s.encode("utf-8")`. */
  function Utf8Length(s: string): (n: nat)
    ensures n >= |s|
  {
    if s == [] then 0 else Utf8Width(s[0]) + Utf8Length(s[1..])
  }

  function Utf8Width(c: char): (n: nat)
    ensures 1 <= n <= 4
  {
    var code := c as int;
    if code < 0x80 then 1 else if code < 0x800 then 2 else if code < 0x1_0000 then 3 else 4
  }

  /** The largest code points that one, two, three and four bytes of UTF-8 hold, with their 7, 11, 16 and 21
      bits (section 3 of RFC 3629). */
  function Capacity(width: nat): int {
    if width == 0 then 0 else if width == 1 then 128 else if width == 2 then 32 * 64
    else if width == 3 then 16 * 64 * 64 else 8 * 64 * 64 * 64
  }

  /** A character takes as few bytes as hold it. */
  lemma WidthIsLeast(c: char)
    ensures Capacity(Utf8Width(c) - 1) <= c as int < Capacity(Utf8Width(c))
  {
  }

  /** A string of ASCII characters is as many bytes long as it has characters. */
  lemma {:induction false} Utf8LengthOfAscii(s: string)
    requires forall c :: c in s ==> c < '\U{80}'
    ensures Utf8Length(s) == |s|
  {
    if s != [] {
      assert s[0] in s && forall c :: c in s[1..] ==> c in s;
      Utf8LengthOfAscii(s[1..]);
    }
  }

  /** Python's `a // b`, which rounds towards minus infinity; Dafny's `/` does so only for b > 0. */
  function FloorDiv(a: int, b: int): int
    requires b != 0
  {
    if b > 0 then a / b else (-a) / (-b)
  }

  /** The quotient is the greatest integer not above the exact one. */
  lemma FloorDivExactly(a: int, b: int)
    requires b != 0
    ensures b > 0 ==> FloorDiv(a, b) * b <= a < FloorDiv(a, b) * b + b
    ensures b < 0 ==> FloorDiv(a, b) * b >= a > FloorDiv(a, b) * b + b
  {
  }

  function Min(a: int, b: int): int {
    if a <= b then a else b
  }

  function Max(a: int, b: int): int {
    if a <= b then b else a
  }

  /** Python's `s[lo:hi]` for a start that is not negative: a negative end counts from the
      right, and both ends are clamped. */
  function Slice<T>(s: seq<T>, lo: nat, hi: int): seq<T> {
    var end := Max(0, Min(|s|, if hi < 0 then |s| + hi else hi));
    if lo < end then s[lo..end] else []
  }

  /** Python's `m.get(k)`. */
  function Lookup<K, V>(m: map<K, V>, k: K): Option<V> {
    if k in m then Some(m[k]) else None
  }

  function Last<T>(s: seq<T>): T
    requires s != []
  {
    s[|s| - 1]
  }
}
