/** Recovery codes of mfa.py: generation, normalization of typed input and the format check. */
module Recovery {
  import opened Prelude

  const ALPHABET := "ABCDEFGHJKMNPQRSTUVWXYZ23456789"

  predicate InAlphabet(c: char) {
    c in ALPHABET
  }

  lemma AlphabetIsUpperCase(c: char)
    requires InAlphabet(c)
    ensures 'A' <= c <= 'Z' || '2' <= c <= '9'
  {
  }

  /** The alphabet is the letters and digits without those that look like one another. */
  lemma AlphabetExactly(c: char)
    ensures InAlphabet(c) <==> ('A' <= c <= 'Z' || '0' <= c <= '9') && c !in "ILO01"
  {
    assert ALPHABET == "ABCDEFGH" + "JKMN" + "PQRSTUVW" + "XYZ" + "23456789";
    Between(c);
  }

  lemma Between(c: char)
    ensures c in "ABCDEFGH" <==> 'A' <= c <= 'H'
    ensures c in "JKMN" <==> 'J' <= c <= 'N' && c != 'L'
    ensures c in "PQRSTUVW" <==> 'P' <= c <= 'W'
    ensures c in "XYZ" <==> 'X' <= c <= 'Z'
    ensures c in "23456789" <==> '2' <= c <= '9'
  {
  }

  const CODE_COUNT := 10

  const CODE_LENGTH := 12

  /** Characters that `str.strip` removes and ASCII strings can hold. */
  predicate IsSpace(c: char) {
    c == ' ' || '\t' <= c <= '\r' || '\U{1C}' <= c <= '\U{1F}'
  }

  lemma SpacesExactly(c: char)
    ensures IsSpace(c) <==> c as int in {9, 10, 11, 12, 13, 28, 29, 30, 31, 32}
  {
  }

  function Upper(c: char): char {
    if 'a' <= c <= 'z' then c - 'a' + 'A' else c
  }

  function Lower(c: char): char {
    if 'A' <= c <= 'Z' then c - 'A' + 'a' else c
  }

  /** Upper and lower case letters of ASCII correspond in alphabetical order, and nothing else is mapped. */
  lemma CasesExactly(k: nat, c: char)
    requires k < 26
    ensures Lower('A' + k as char) == 'a' + k as char && Upper('a' + k as char) == 'A' + k as char
    ensures !('A' <= c <= 'Z') ==> Lower(c) == c
    ensures !('a' <= c <= 'z') ==> Upper(c) == c
  {
  }

  function MapChars(f: char -> char, s: string): (r: string)
    ensures |r| == |s| && forall i :: 0 <= i < |s| ==> r[i] == f(s[i])
  {
    seq(|s|, i requires 0 <= i < |s| => f(s[i]))
  }

  function StripLeft(s: string): string {
    if s != [] && IsSpace(s[0]) then StripLeft(s[1..]) else s
  }

  function StripRight(s: string): string {
    if s != [] && IsSpace(Last(s)) then StripRight(s[..|s| - 1]) else s
  }

  /** `normalize_recovery_input`. */
  function Normalize(code: string): string {
    MapChars(Upper, StripRight(StripLeft(code)))
  }

  /** `s.split("-")`. */
  function Split(s: string): (parts: seq<string>)
    ensures parts != []
  {
    if s == [] then [[]]
    else
      var rest := Split(s[1..]);
      if s[0] == '-' then [[]] + rest else [[s[0]] + rest[0]] + rest[1..]
  }

  /** `is_valid_recovery_code`. */
  predicate IsValidCode(code: string) {
    && |code| == CODE_LENGTH + 2
    && var parts := Split(code);
       |parts| == 3 && forall p :: p in parts ==> |p| == 4 && forall ch :: ch in p ==> InAlphabet(ch)
  }

  /** The form XXXX-XXXX-XXXX read by position. */
  predicate IsCanonical(code: string) {
    && |code| == 14
    && forall i :: 0 <= i < 14 ==> if i == 4 || i == 9 then code[i] == '-' else InAlphabet(code[i])
  }

  /** `generate_recovery_code` for the twelve characters drawn. */
  function Generate(chars: string): string
    requires |chars| == CODE_LENGTH
  {
    chars[0..4] + "-" + chars[4..8] + "-" + chars[8..12]
  }

  function Join(parts: seq<string>): string
    requires parts != []
  {
    if |parts| == 1 then parts[0] else parts[0] + "-" + Join(parts[1..])
  }

  lemma {:induction false} JoinSplit(s: string)
    ensures Join(Split(s)) == s
  {
    if s != [] {
      JoinSplit(s[1..]);
      var rest := Split(s[1..]);
      if s[0] == '-' {
        assert Split(s) == [[]] + rest && ([[]] + rest)[1..] == rest;
        assert Join([[]] + rest) == [] + "-" + Join(rest);
      } else {
        JoinPrefixed(s[0], rest);
      }
      assert s == [s[0]] + s[1..];
    }
  }

  lemma JoinPrefixed(c: char, parts: seq<string>)
    requires parts != []
    ensures Join([[c] + parts[0]] + parts[1..]) == [c] + Join(parts)
  {
    var prefixed := [[c] + parts[0]] + parts[1..];
    if |parts| > 1 {
      assert prefixed[1..] == parts[1..];
      assert [c] + parts[0] + "-" + Join(parts[1..]) == [c] + (parts[0] + "-" + Join(parts[1..]));
    }
  }

  /** Splitting a hyphen-free prefix off. */
  lemma {:induction false} SplitPart(part: string, rest: string)
    requires '-' !in part
    ensures Split(part + "-" + rest) == [part] + Split(rest)
  {
    var s := part + "-" + rest;
    if part == [] {
      assert s[1..] == rest;
    } else {
      assert s[1..] == part[1..] + "-" + rest;
      SplitPart(part[1..], rest);
      assert [s[0]] + part[1..] == part;
      assert ([part[1..]] + Split(rest))[1..] == Split(rest);
    }
  }

  lemma {:induction false} SplitWhole(part: string)
    requires '-' !in part
    ensures Split(part) == [part]
  {
    if part != [] {
      SplitWhole(part[1..]);
      assert [part[0]] + part[1..] == part;
    }
  }

  lemma ThreePartsJoined(parts: seq<string>)
    requires |parts| == 3
    ensures Join(parts) == parts[0] + "-" + (parts[1] + "-" + parts[2])
  {
    assert parts[1..][1..] == [parts[2]] && parts[1..][0] == parts[1];
    assert Join(parts[1..]) == parts[1] + "-" + parts[2];
  }

  lemma ThreePartsSplit(a: string, b: string, c: string)
    requires '-' !in a && '-' !in b && '-' !in c
    ensures Split(a + "-" + (b + "-" + c)) == [a, b, c]
  {
    hide Split;
    SplitPart(a, b + "-" + c);
    SplitPart(b, c);
    SplitWhole(c);
  }

  lemma ValidImpliesCanonical(code: string)
    requires IsValidCode(code)
    ensures IsCanonical(code)
  {
    hide Split, InAlphabet;
    var parts := Split(code);
    JoinSplit(code);
    ThreePartsJoined(parts);
    var a, b, c := parts[0], parts[1], parts[2];
    assert a in parts && b in parts && c in parts;
    forall i | 0 <= i < 14
      ensures if i == 4 || i == 9 then code[i] == '-' else InAlphabet(code[i])
    {
      if i < 4 {
        assert code[i] == a[i];
      } else if 4 < i < 9 {
        assert code[i] == b[i - 5];
      } else if 9 < i {
        assert code[i] == c[i - 10];
      }
    }
  }

  lemma CanonicalGroup(code: string, lo: nat)
    requires IsCanonical(code) && (lo == 0 || lo == 5 || lo == 10)
    ensures '-' !in code[lo..lo + 4] && forall ch :: ch in code[lo..lo + 4] ==> InAlphabet(ch)
  {
    hide InAlphabet;
    forall i | lo <= i < lo + 4
      ensures code[i] != '-' && InAlphabet(code[i])
    {
      AlphabetIsUpperCase(code[i]);
    }
  }

  lemma CanonicalImpliesValid(code: string)
    requires IsCanonical(code)
    ensures IsValidCode(code)
  {
    hide Split, InAlphabet;
    CanonicalGroup(code, 0);
    CanonicalGroup(code, 5);
    CanonicalGroup(code, 10);
    var a, b, c := code[0..4], code[5..9], code[10..14];
    assert code == a + "-" + (b + "-" + c);
    hide IsCanonical;
    ThreePartsSplit(a, b, c);
  }

  /** The split-based check accepts exactly the positional form. */
  lemma ValidIsCanonical(code: string)
    ensures IsValidCode(code) <==> IsCanonical(code)
  {
    if IsValidCode(code) {
      ValidImpliesCanonical(code);
    }
    if IsCanonical(code) {
      CanonicalImpliesValid(code);
    }
  }

  /** Every generated code passes the check. */
  lemma GeneratedIsValid(chars: string)
    requires |chars| == CODE_LENGTH && forall ch :: ch in chars ==> InAlphabet(ch)
    ensures IsValidCode(Generate(chars))
  {
    ValidIsCanonical(Generate(chars));
  }

  lemma {:induction false} StripLeftPadding(pad: string, s: string)
    requires forall ch :: ch in pad ==> IsSpace(ch)
    requires s != [] ==> !IsSpace(s[0])
    ensures StripLeft(pad + s) == s
  {
    if pad == [] {
      assert pad + s == s;
    } else {
      assert (pad + s)[1..] == pad[1..] + s;
      StripLeftPadding(pad[1..], s);
    }
  }

  lemma {:induction false} StripRightPadding(s: string, pad: string)
    requires forall ch :: ch in pad ==> IsSpace(ch)
    requires s != [] ==> !IsSpace(Last(s))
    ensures StripRight(s + pad) == s
  {
    if pad == [] {
      assert s + pad == s;
    } else {
      assert (s + pad)[..|s + pad| - 1] == s + pad[..|pad| - 1];
      StripRightPadding(s, pad[..|pad| - 1]);
    }
  }

  /** A valid code survives being typed in lower case, in any mixture, between blanks. */
  lemma TypedCodeNormalizes(code: string, typed: string, before: string, after: string)
    requires IsValidCode(code)
    requires |typed| == |code| && forall i :: 0 <= i < |code| ==> typed[i] == code[i] || typed[i] == Lower(code[i])
    requires forall ch :: ch in before + after ==> IsSpace(ch)
    ensures Normalize(before + typed + after) == code
  {
    hide IsValidCode;
    ValidIsCanonical(code);
    forall i | 0 <= i < 14
      ensures !IsSpace(typed[i]) && Upper(typed[i]) == code[i]
    {
      hide InAlphabet, IsSpace, Upper, Lower;
      TypedChar(code[i], typed[i]);
    }
    hide IsCanonical, InAlphabet, IsSpace, Upper, Lower, StripLeft, StripRight;
    assert before + typed + after == before + (typed + after) && (typed + after)[0] == typed[0];
    PaddingIsBlank(before, after);
    StripLeftPadding(before, typed + after);
    StripRightPadding(typed, after);
    assert MapChars(Upper, typed) == code;
  }

  lemma TypedChar(c: char, t: char)
    requires c == '-' || InAlphabet(c)
    requires t == c || t == Lower(c)
    ensures !IsSpace(t) && Upper(t) == c
  {
    hide InAlphabet;
    if c != '-' {
      AlphabetIsUpperCase(c);
    }
  }

  lemma PaddingIsBlank(before: string, after: string)
    requires forall ch :: ch in before + after ==> IsSpace(ch)
    ensures forall ch :: ch in before ==> IsSpace(ch)
    ensures forall ch :: ch in after ==> IsSpace(ch)
  {
    hide IsSpace;
    assert forall ch :: ch in before ==> ch in before + after;
    assert forall ch :: ch in after ==> ch in before + after;
  }

  /** Normalizing a valid code leaves it alone. */
  lemma ValidIsNormal(code: string)
    requires IsValidCode(code)
    ensures Normalize(code) == code
  {
    hide IsValidCode, IsSpace, Normalize;
    TypedCodeNormalizes(code, code, "", "");
    assert "" + code + "" == code;
  }
}
