/** Time-based one-time passwords of mfa.py (section 5.3 of RFC 4226, sections 4.2 and 5.2 of
    RFC 6238). HMAC is a parameter; all that is used of it is the length of its digests. */
module Totp {
  import opened Prelude
  import opened Cbor

  /** HMAC with SHA-1, SHA-256 or SHA-512: a digest of 20, 32 or 64 bytes. */
  ghost predicate IsHmac(hmac: (bytes, bytes) -> bytes) {
    forall key: bytes, message: bytes :: |hmac(key, message)| in {20, 32, 64}
  }

  // ----- Zero-padded decimals -----

  function Pow10(k: nat): (p: nat)
    ensures p > 0
  {
    if k == 0 then 1 else 10 * Pow10(k - 1)
  }

  function Digit(d: nat): (c: char)
    requires d < 10
    ensures '0' <= c <= '9'
  {
    '0' + d as char
  }

  predicate IsDigits(s: string) {
    forall i :: 0 <= i < |s| ==> '0' <= s[i] <= '9'
  }

  /** `str(n)` for a number that is not negative. */
  function Decimal(n: nat): (s: string)
    ensures s != []
  {
    if n < 10 then [Digit(n)] else Decimal(n / 10) + [Digit(n % 10)]
  }

  /** `s.zfill(width)` for a string without a sign. */
  function ZFill(s: string, width: nat): (r: string)
    ensures |r| == Max(|s|, width)
    decreases width - |s|
  {
    if |s| >= width then s else ZFill(['0'] + s, width)
  }

  /** The number a string of digits stands for. */
  function NumberOf(s: string): nat
    requires IsDigits(s)
  {
    if s == [] then 0 else NumberOf(s[..|s| - 1]) * 10 + (Last(s) as int - '0' as int)
  }

  lemma {:induction false} DecimalIsNumber(n: nat)
    ensures IsDigits(Decimal(n)) && NumberOf(Decimal(n)) == n
  {
    var s := Decimal(n);
    if n < 10 {
      assert s[..|s| - 1] == [];
    } else {
      DecimalIsNumber(n / 10);
      assert s[..|s| - 1] == Decimal(n / 10);
    }
  }

  lemma {:induction false} DecimalLength(n: nat, k: nat)
    requires n < Pow10(k) && k > 0
    ensures |Decimal(n)| <= k
    decreases k
  {
    if n >= 10 {
      assert Pow10(k) == 10 * Pow10(k - 1);
      DecimalLength(n / 10, k - 1);
    }
  }

  lemma {:induction false} LeadingZero(s: string)
    requires IsDigits(s)
    ensures IsDigits(['0'] + s) && NumberOf(['0'] + s) == NumberOf(s)
  {
    var z := ['0'] + s;
    if s == [] {
      assert z[..|z| - 1] == [];
    } else {
      LeadingZero(s[..|s| - 1]);
      assert z[..|z| - 1] == ['0'] + s[..|s| - 1];
    }
  }

  lemma {:induction false} ZFillKeepsNumber(s: string, width: nat)
    requires IsDigits(s)
    ensures IsDigits(ZFill(s, width)) && NumberOf(ZFill(s, width)) == NumberOf(s)
    decreases width - |s|
  {
    if |s| < width {
      LeadingZero(s);
      ZFillKeepsNumber(['0'] + s, width);
    }
  }

  /** `str(n % 10**digits).zfill(digits)`. */
  function Format(n: nat, digits: nat): string {
    ZFill(Decimal(n % Pow10(digits)), digits)
  }

  /** The output is exactly `digits` decimal digits, and they spell n modulo 10^digits. */
  lemma FormatIsExact(n: nat, digits: nat)
    requires digits > 0
    ensures |Format(n, digits)| == digits && IsDigits(Format(n, digits))
    ensures NumberOf(Format(n, digits)) == n % Pow10(digits)
  {
    var r := n % Pow10(digits);
    DecimalIsNumber(r);
    DecimalLength(r, digits);
    ZFillKeepsNumber(Decimal(r), digits);
  }

  /** Comparing codes as strings is comparing them modulo 10^digits. */
  lemma FormatEqualIffCongruent(m: nat, n: nat, digits: nat)
    requires digits > 0
    ensures Format(m, digits) == Format(n, digits) <==> m % Pow10(digits) == n % Pow10(digits)
  {
    FormatIsExact(m, digits);
    FormatIsExact(n, digits);
  }

  // ----- Dynamic truncation -----

  /** The 31-bit number taken from a digest: four bytes at the offset in its low nibble. */
  function Truncate(digest: bytes): (n: nat)
    requires |digest| >= 20
  {
    var offset := Last(digest) % 16;
    FromBigEndian(digest[offset..offset + 4]) % 0x8000_0000
  }

  /** Counters are packed into 64 bits. */
  const COUNTER_LIMIT := 0x1_0000_0000_0000_0000

  /** `totp_compute` for one counter: struct.pack refuses counters outside 64 bits. */
  function Code(hmac: (bytes, bytes) -> bytes, secret: bytes, counter: int, digits: nat): Result<string>
    requires IsHmac(hmac)
  {
    if 0 <= counter < COUNTER_LIMIT then
      Ok(Format(Truncate(hmac(secret, ToBigEndian(counter, 8))), digits))
    else Raise(StructError)
  }

  function Compute(hmac: (bytes, bytes) -> bytes, secret: bytes, timestamp: int, period: int,
                   digits: nat): Result<string>
    requires IsHmac(hmac)
  {
    if period == 0 then Raise(ZeroDivisionError)
    else Code(hmac, secret, FloorDiv(timestamp, period), digits)
  }

  // ----- Verification with drift -----

  /** The loop over `range(-drift, drift + 1)`, from window `w` on. */
  function Search(hmac: (bytes, bytes) -> bytes, secret: bytes, candidate: string, timestamp: int, period: int,
                  digits: nat, w: int, drift: nat): Result<bool>
    requires IsHmac(hmac)
    decreases drift - w
  {
    if w > drift then Ok(false) else
    match Compute(hmac, secret, timestamp + w * period, period, digits)
    case Raise(e) => Raise(e)
    case Ok(expected) =>
      if expected == candidate then Ok(true)
      else Search(hmac, secret, candidate, timestamp, period, digits, w + 1, drift)
  }

  /** `totp_verify`. */
  function Verify(hmac: (bytes, bytes) -> bytes, secret: bytes, candidate: string, timestamp: int, period: int,
                  digits: nat, drift: int): Result<bool>
    requires IsHmac(hmac)
  {
    if drift < 0 || drift > 10 then Raise(ValueError)
    else if candidate == "" || |candidate| != digits || !IsDigits(candidate) then Ok(false)
    else Search(hmac, secret, candidate, timestamp, period, digits, -drift, drift)
  }

  lemma FloorDivShift(t: int, w: int, p: int)
    requires p != 0
    ensures FloorDiv(t + w * p, p) == FloorDiv(t, p) + w
  {
    if p > 0 {
      DivShift(t, w, p);
    } else {
      DivShift(-t, w, -p);
      assert -(t + w * p) == -t + w * -p;
    }
  }

  lemma DivShift(t: int, w: int, p: int)
    requires p > 0
    ensures (t + w * p) / p == t / p + w
  {
    var q, r := t / p, t % p;
    assert t == q * p + r;
    QuotientUnique(t + w * p, q + w, r, p) by {
      assert (q + w) * p == q * p + w * p;
    }
  }

  lemma QuotientUnique(n: int, q: int, r: int, p: int)
    requires p > 0 && 0 <= r < p && n == q * p + r
    ensures n / p == q
  {
    if n / p < q {
      MultiplesApart(n / p, q, p);
    } else if q < n / p {
      MultiplesApart(q, n / p, p);
    }
  }

  lemma MultiplesApart(a: int, b: int, p: int)
    requires p > 0 && a < b
    ensures a * p + p <= b * p
  {
    assert (b - a) * p == b * p - a * p;
    AtLeastOnce(b - a, p);
  }

  lemma {:induction false} AtLeastOnce(k: nat, p: nat)
    requires k > 0
    ensures k * p >= p
  {
    if k > 1 {
      AtLeastOnce(k - 1, p);
      assert k * p == (k - 1) * p + p;
    }
  }

  /** The candidate is the code of the counter. */
  ghost predicate Matches(hmac: (bytes, bytes) -> bytes, secret: bytes, candidate: string, counter: int, digits: nat)
    requires IsHmac(hmac)
  {
    Code(hmac, secret, counter, digits) == Ok(candidate)
  }

  // ----- What the RFCs say a code is -----

  /** The counter as eight bytes, the high byte first (section 5.1 of RFC 4226). */
  function Message(c: nat): bytes
    requires c < COUNTER_LIMIT
  {
    [c / 0x100_0000_0000_0000, c / 0x1_0000_0000_0000 % 256, c / 0x100_0000_0000 % 256, c / 0x1_0000_0000 % 256,
     c / 0x100_0000 % 256, c / 0x1_0000 % 256, c / 0x100 % 256, c % 256]
  }

  /** The number of section 5.3 of RFC 4226: four bytes from the offset in the low four bits of the
      last byte, without the highest bit. */
  function DynamicNumber(d: bytes): nat
    requires |d| >= 20
  {
    var o := d[|d| - 1] % 16;
    var b0: int, b1: int, b2: int, b3: int := d[o], d[o + 1], d[o + 2], d[o + 3];
    b0 % 128 * 0x100_0000 + b1 * 0x1_0000 + b2 * 0x100 + b3
  }

  /** The candidate has the right number of decimal digits, and they spell the number taken from the
      digest of the counter, modulo a power of ten. */
  predicate IsCodeOf(hmac: (bytes, bytes) -> bytes, secret: bytes, candidate: string, counter: int, digits: nat)
    requires IsHmac(hmac)
  {
    && 0 <= counter < COUNTER_LIMIT
    && |candidate| == digits && IsDigits(candidate)
    && NumberOf(candidate) == DynamicNumber(hmac(secret, Message(counter))) % Pow10(digits)
  }

  lemma ToBigEndianUnfolds(n: nat, k: nat)
    ensures ToBigEndian(n, k + 1) == ToBigEndian(n / 256, k) + [n % 256]
  {
  }

  lemma FourBytesPacked(n: nat, k: nat)
    ensures ToBigEndian(n, k + 4)
         == ToBigEndian(n / 0x1_0000_0000, k) + [n / 0x100_0000 % 256, n / 0x1_0000 % 256, n / 0x100 % 256, n % 256]
  {
    hide ToBigEndian;
    ToBigEndianUnfolds(n, k + 3);
    ToBigEndianUnfolds(n / 0x100, k + 2);
    ToBigEndianUnfolds(n / 0x1_0000, k + 1);
    ToBigEndianUnfolds(n / 0x100_0000, k);
    assert n / 0x100 / 256 == n / 0x1_0000 && n / 0x1_0000 / 256 == n / 0x100_0000;
    assert n / 0x100_0000 / 256 == n / 0x1_0000_0000;
  }

  lemma MessageIsPacked(c: nat)
    requires c < COUNTER_LIMIT
    ensures ToBigEndian(c, 8) == Message(c)
  {
    hide ToBigEndian;
    var high := c / 0x1_0000_0000;
    FourBytesPacked(c, 4);
    FourBytesPacked(high, 0);
    NoBytes(high / 0x1_0000_0000);
    assert high / 0x100_0000 == c / 0x100_0000_0000_0000 < 256 && high / 0x1_0000 == c / 0x1_0000_0000_0000;
    assert high / 0x100 == c / 0x100_0000_0000;
  }

  lemma NoBytes(n: nat)
    ensures ToBigEndian(n, 0) == []
  {
  }

  lemma FromBigEndianUnfolds(b: bytes, x: byte)
    ensures FromBigEndian(b + [x]) == FromBigEndian(b) * 256 + x
  {
    assert (b + [x])[..|b|] == b;
  }

  /** Dynamic truncation takes exactly that number. */
  lemma TruncateIsDynamicNumber(d: bytes)
    requires |d| >= 20
    ensures Truncate(d) == DynamicNumber(d)
  {
    var o := Last(d) % 16;
    var b0, b1, b2, b3 := d[o], d[o + 1], d[o + 2], d[o + 3];
    assert d[o..o + 4] == [] + [b0] + [b1] + [b2] + [b3];
    FromBigEndianUnfolds([], b0);
    FromBigEndianUnfolds([] + [b0], b1);
    FromBigEndianUnfolds([] + [b0] + [b1], b2);
    FromBigEndianUnfolds([] + [b0] + [b1] + [b2], b3);
    assert FromBigEndian([]) == 0;
    hide FromBigEndian;
    assert b0 == b0 / 128 * 128 + b0 % 128;
  }

  lemma LastDigit(s: string)
    requires IsDigits(s) && s != []
    ensures IsDigits(s[..|s| - 1]) && NumberOf(s[..|s| - 1]) == NumberOf(s) / 10
    ensures NumberOf(s) % 10 == Last(s) as int - '0' as int
  {
  }

  lemma SameLast(s: string, t: string)
    requires s != [] && t != [] && s[..|s| - 1] == t[..|t| - 1] && Last(s) as int == Last(t) as int
    ensures s == t
  {
    assert s == s[..|s| - 1] + [Last(s)] && t == t[..|t| - 1] + [Last(t)];
  }

  /** Two strings of as many digits that stand for the same number are equal. */
  lemma {:induction false} DigitsAreUnique(s: string, t: string)
    requires IsDigits(s) && IsDigits(t) && |s| == |t| && NumberOf(s) == NumberOf(t)
    ensures s == t
  {
    if s != [] {
      LastDigit(s);
      LastDigit(t);
      hide NumberOf, IsDigits;
      DigitsAreUnique(s[..|s| - 1], t[..|t| - 1]);
      SameLast(s, t);
    }
  }

  /** `totp_compute` gives exactly the code of the RFCs. */
  lemma MatchesExactlyTheCode(hmac: (bytes, bytes) -> bytes, secret: bytes, candidate: string, counter: int,
                              digits: nat)
    requires IsHmac(hmac) && digits > 0
    ensures Matches(hmac, secret, candidate, counter, digits) <==> IsCodeOf(hmac, secret, candidate, counter, digits)
  {
    if 0 <= counter < COUNTER_LIMIT {
      MessageIsPacked(counter);
      var digest := hmac(secret, Message(counter));
      TruncateIsDynamicNumber(digest);
      FormatIsExact(Truncate(digest), digits);
      hide Truncate, DynamicNumber, Format, ToBigEndian, Message, NumberOf, IsDigits, Pow10;
      if IsCodeOf(hmac, secret, candidate, counter, digits) {
        DigitsAreUnique(candidate, Format(Truncate(digest), digits));
      }
    }
  }

  /** The example of section 5.4 of RFC 4226. */
  lemma Rfc4226Example()
    ensures var digest := [0x1f, 0x86, 0x98, 0x69, 0x0e, 0x02, 0xca, 0x16, 0x61, 0x85,
                           0x50, 0xef, 0x7f, 0x19, 0xda, 0x8e, 0x94, 0x5b, 0x55, 0x5a];
      Truncate(digest) == 0x50ef7f19 && Truncate(digest) % 1_000_000 == 872921
  {
    var digest := [0x1f, 0x86, 0x98, 0x69, 0x0e, 0x02, 0xca, 0x16, 0x61, 0x85,
                   0x50, 0xef, 0x7f, 0x19, 0xda, 0x8e, 0x94, 0x5b, 0x55, 0x5a];
    assert digest[|digest| - 1] % 16 == 10;
    TruncateIsDynamicNumber(digest);
    hide Truncate;
    assert DynamicNumber(digest) == 0x50 * 0x100_0000 + 0xef * 0x1_0000 + 0x7f * 0x100 + 0x19;
  }

  // ----- When a code is accepted -----

  /** From a counter that is not negative on, the search finds a match or raises at the first
      counter beyond 64 bits. */
  lemma {:induction false} SearchFindsCounter(hmac: (bytes, bytes) -> bytes, secret: bytes, candidate: string,
                                              timestamp: int, period: int, digits: nat, w: int, drift: nat)
    requires IsHmac(hmac) && period != 0
    requires 0 <= FloorDiv(timestamp, period) + w
    ensures var now := FloorDiv(timestamp, period);
      Search(hmac, secret, candidate, timestamp, period, digits, w, drift)
        == if exists c :: now + w <= c <= now + drift && Matches(hmac, secret, candidate, c, digits) then Ok(true)
           else if w <= drift && now + drift >= COUNTER_LIMIT then Raise(StructError)
           else Ok(false)
    decreases drift - w
  {
    if w <= drift {
      var now := FloorDiv(timestamp, period);
      FloorDivShift(timestamp, w, period);
      if now + w < COUNTER_LIMIT && !Matches(hmac, secret, candidate, now + w, digits) {
        SearchFindsCounter(hmac, secret, candidate, timestamp, period, digits, w + 1, drift);
      } else if now + w < COUNTER_LIMIT {
        assert now + w <= now + w <= now + drift;
      }
    }
  }

  /** A search that starts at a negative counter raises at once. */
  lemma {:induction false} SearchFromNegativeCounter(hmac: (bytes, bytes) -> bytes, secret: bytes, candidate: string,
                                                     timestamp: int, period: int, digits: nat, w: int, drift: nat)
    requires IsHmac(hmac) && period != 0 && w <= drift
    requires FloorDiv(timestamp, period) + w < 0
    ensures Search(hmac, secret, candidate, timestamp, period, digits, w, drift) == Raise(StructError)
  {
    FloorDivShift(timestamp, w, period);
  }

  lemma VerifyFindsMatch(hmac: (bytes, bytes) -> bytes, secret: bytes, candidate: string,
                         timestamp: int, period: int, digits: nat, drift: int)
    requires IsHmac(hmac)
    requires 0 <= drift <= 10 && period != 0 && digits > 0 && |candidate| == digits && IsDigits(candidate)
    ensures var now := FloorDiv(timestamp, period);
      Verify(hmac, secret, candidate, timestamp, period, digits, drift) ==
        if now - drift < 0 then Raise(StructError)
        else if exists c :: now - drift <= c <= now + drift && Matches(hmac, secret, candidate, c, digits) then Ok(true)
        else if now + drift >= COUNTER_LIMIT then Raise(StructError)
        else Ok(false)
  {
    if FloorDiv(timestamp, period) - drift < 0 {
      SearchFromNegativeCounter(hmac, secret, candidate, timestamp, period, digits, -drift, drift);
    } else {
      SearchFindsCounter(hmac, secret, candidate, timestamp, period, digits, -drift, drift);
    }
  }

  lemma MatchesAreTheCodes(hmac: (bytes, bytes) -> bytes, secret: bytes, candidate: string, digits: nat)
    requires IsHmac(hmac) && digits > 0
    ensures forall c: int ::
      Matches(hmac, secret, candidate, c, digits) <==> IsCodeOf(hmac, secret, candidate, c, digits)
  {
    hide IsHmac, Matches, IsCodeOf;
    forall c: int
      ensures Matches(hmac, secret, candidate, c, digits) <==> IsCodeOf(hmac, secret, candidate, c, digits)
    {
      MatchesExactlyTheCode(hmac, secret, candidate, c, digits);
    }
  }

  /** `totp_verify` on every input. A candidate of the right shape is accepted iff it is the
      code of some counter within the drift; the call raises instead when the oldest counter
      is negative, which is in the first `drift` windows of the epoch, or when it runs past
      64 bits without a match. */
  lemma VerifyAcceptsExactlyTheWindow(hmac: (bytes, bytes) -> bytes, secret: bytes, candidate: string,
                                      timestamp: int, period: int, digits: nat, drift: int)
    requires IsHmac(hmac)
    ensures Verify(hmac, secret, candidate, timestamp, period, digits, drift) ==
      if drift < 0 || drift > 10 then Raise(ValueError)
      else if digits == 0 || |candidate| != digits || !IsDigits(candidate) then Ok(false)
      else if period == 0 then Raise(ZeroDivisionError)
      else
        var now := FloorDiv(timestamp, period);
        if now - drift < 0 then Raise(StructError)
        else if exists c :: now - drift <= c <= now + drift && IsCodeOf(hmac, secret, candidate, c, digits) then
          Ok(true)
        else if now + drift >= COUNTER_LIMIT then Raise(StructError)
        else Ok(false)
    ensures period > 0 ==> (FloorDiv(timestamp, period) - drift < 0 <==> timestamp < drift * period)
  {
    hide IsHmac, IsCodeOf, Matches, IsDigits;
    if period > 0 {
      WindowStart(timestamp, drift, period);
    }
    if 0 <= drift <= 10 && period != 0 && digits > 0 && |candidate| == digits && IsDigits(candidate) {
      hide Verify;
      VerifyFindsMatch(hmac, secret, candidate, timestamp, period, digits, drift);
      MatchesAreTheCodes(hmac, secret, candidate, digits);
    }
  }

  /** Only strings of the right shape are codes, so nothing is lost to the shape check. */
  lemma CodesAreShaped(hmac: (bytes, bytes) -> bytes, secret: bytes, candidate: string, counter: int, digits: nat)
    requires IsHmac(hmac) && digits > 0 && Matches(hmac, secret, candidate, counter, digits)
    ensures |candidate| == digits && IsDigits(candidate)
  {
    FormatIsExact(Truncate(hmac(secret, ToBigEndian(counter, 8))), digits);
  }

  lemma WindowStart(t: int, k: int, p: int)
    requires p > 0
    ensures t / p < k <==> t < k * p
  {
    if t / p < k {
      MultiplesApart(t / p, k, p);
    } else if k < t / p {
      MultiplesApart(k, t / p, p);
    }
  }

  /** The times at which a given counter is within the drift form one interval, of exactly
      (2 * drift + 1) * period seconds. */
  lemma CounterIsAcceptedForOneInterval(counter: int, drift: nat, period: int, t: int)
    requires period > 0
    ensures var first, end := (counter - drift) * period, (counter + drift + 1) * period;
      && end - first == (2 * drift + 1) * period
      && (FloorDiv(t, period) - drift <= counter <= FloorDiv(t, period) + drift <==> first <= t < end)
  {
    WindowStart(t, counter - drift, period);
    WindowStart(t, counter + drift + 1, period);
    assert (counter + drift + 1) * period - (counter - drift) * period == (2 * drift + 1) * period;
  }

  /** So the code of a counter verifies at every time of that interval past the first `drift`
      windows of the epoch. */
  lemma CodeIsAcceptedThroughout(hmac: (bytes, bytes) -> bytes, secret: bytes, code: string, counter: nat, digits: nat,
                                 drift: nat, period: int, t: int)
    requires IsHmac(hmac) && period > 0 && digits > 0 && drift <= 10
    requires IsCodeOf(hmac, secret, code, counter, digits)
    requires (counter - drift) * period <= t < (counter + drift + 1) * period && t >= drift * period
    ensures Verify(hmac, secret, code, t, period, digits, drift) == Ok(true)
  {
    CounterIsAcceptedForOneInterval(counter, drift, period, t);
    VerifyAcceptsExactlyTheWindow(hmac, secret, code, t, period, digits, drift);
  }
}
