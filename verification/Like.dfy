/** The credential filter of `list_users`: the pattern the Postgres store builds for ILIKE
    against the substring test of the in-memory store. */
module Like {
  import opened Recovery

  // ----- Building the pattern -----

  /** `s.replace(c, "\\" + c)`. */
  function ReplaceChar(s: string, c: char): string {
    if s == [] then [] else (if s[0] == c then ['\\', c] else [s[0]]) + ReplaceChar(s[1..], c)
  }

  /** The three successive replacements, the backslash first. */
  function Escape(query: string): string {
    ReplaceChar(ReplaceChar(ReplaceChar(query, '\\'), '%'), '_')
  }

  predicate IsSpecial(c: char) {
    c == '\\' || c == '%' || c == '_'
  }

  /** One backslash before every special character. */
  function EscapeEach(query: string): string {
    if query == [] then [] else
    (if IsSpecial(query[0]) then ['\\', query[0]] else [query[0]]) + EscapeEach(query[1..])
  }

  lemma {:induction false} ReplaceCharConcat(s: string, t: string, c: char)
    ensures ReplaceChar(s + t, c) == ReplaceChar(s, c) + ReplaceChar(t, c)
  {
    if s == [] {
      assert s + t == t;
    } else {
      var head, tail := if s[0] == c then ['\\', c] else [s[0]], ReplaceChar(s[1..], c);
      ReplaceCharConcat(s[1..], t, c);
      assert (s + t)[1..] == s[1..] + t;
      assert ReplaceChar(s + t, c) == head + (tail + ReplaceChar(t, c));
      hide ReplaceChar;
      assert head + (tail + ReplaceChar(t, c)) == (head + tail) + ReplaceChar(t, c);
    }
  }

  lemma ReplaceCharOne(x: char, c: char)
    ensures ReplaceChar([x], c) == if x == c then ['\\', c] else [x]
  {
    assert ReplaceChar([x][1..], c) == [];
  }

  lemma ReplaceCharTwo(x: char, y: char, c: char)
    ensures ReplaceChar([x, y], c) == ReplaceChar([x], c) + ReplaceChar([y], c)
  {
    assert [x, y] == [x] + [y];
    ReplaceCharConcat([x], [y], c);
  }

  lemma EscapeOne(x: char)
    ensures Escape([x]) == if IsSpecial(x) then ['\\', x] else [x]
  {
    hide ReplaceChar;
    ReplaceCharOne(x, '\\');
    ReplaceCharOne(x, '%');
    ReplaceCharOne(x, '_');
    ReplaceCharTwo('\\', x, '%');
    ReplaceCharTwo('\\', x, '_');
    ReplaceCharOne('\\', '%');
    ReplaceCharOne('\\', '_');
    assert ['\\'] + [x] == ['\\', x];
  }

  /** The order of the replacements is right: together they escape each character once. */
  lemma {:induction false} EscapeIsCharacterWise(query: string)
    ensures Escape(query) == EscapeEach(query)
  {
    if query != [] {
      var head, tail := [query[0]], query[1..];
      assert query == head + tail;
      EscapeOne(query[0]);
      EscapeIsCharacterWise(tail);
      ReplaceCharConcat(head, tail, '\\');
      ReplaceCharConcat(ReplaceChar(head, '\\'), ReplaceChar(tail, '\\'), '%');
      ReplaceCharConcat(ReplaceChar(ReplaceChar(head, '\\'), '%'), ReplaceChar(ReplaceChar(tail, '\\'), '%'), '_');
    }
  }

  // ----- ILIKE -----

  /** SQL's `s ILIKE p`: '%' stands for any string, '_' for any character, a backslash makes
      the next character literal, and letters are compared without regard to case. */
  predicate ILike(p: string, s: string)
    decreases |p|, |s|
  {
    if p == [] then s == []
    else if p[0] == '%' then ILike(p[1..], s) || (s != [] && ILike(p, s[1..]))
    else if p[0] == '_' then s != [] && ILike(p[1..], s[1..])
    else if p[0] == '\\' && |p| > 1 then s != [] && Lower(s[0]) == Lower(p[1]) && ILike(p[2..], s[1..])
    else s != [] && Lower(s[0]) == Lower(p[0]) && ILike(p[1..], s[1..])
  }

  /** `q` equals the start of `s` up to case. */
  predicate FoldedPrefix(q: string, s: string) {
    |q| <= |s| && forall i :: 0 <= i < |q| ==> Lower(q[i]) == Lower(s[i])
  }

  /** Python's `needle in haystack`. */
  predicate Contains(haystack: string, needle: string) {
    exists k :: 0 <= k <= |haystack| && OccursAt(haystack, needle, k)
  }

  predicate OccursAt(haystack: string, needle: string, k: nat) {
    k + |needle| <= |haystack| && haystack[k..k + |needle|] == needle
  }

  lemma {:induction false} PercentMatchesAll(s: string)
    ensures ILike("%", s)
  {
    if s == [] {
      assert "%"[1..] == "";
      assert ILike("", s);
    } else {
      PercentMatchesAll(s[1..]);
    }
  }

  /** An escaped query followed by '%' matches exactly the strings that start with the query. */
  lemma {:induction false} EscapedPrefix(q: string, s: string)
    ensures ILike(EscapeEach(q) + "%", s) <==> FoldedPrefix(q, s)
  {
    var p := EscapeEach(q) + "%";
    if q == [] {
      assert p == "%";
      PercentMatchesAll(s);
    } else {
      var rest := EscapeEach(q[1..]) + "%";
      if IsSpecial(q[0]) {
        assert p == ['\\', q[0]] + rest && p[2..] == rest;
      } else {
        assert p == [q[0]] + rest && p[1..] == rest;
      }
      if s != [] {
        EscapedPrefix(q[1..], s[1..]);
        FoldedPrefixUnfolds(q, s);
      }
    }
  }

  lemma FoldedPrefixUnfolds(q: string, s: string)
    requires q != [] && s != []
    ensures FoldedPrefix(q, s) <==> Lower(q[0]) == Lower(s[0]) && FoldedPrefix(q[1..], s[1..])
  {
    if Lower(q[0]) == Lower(s[0]) && FoldedPrefix(q[1..], s[1..]) {
      forall i | 0 <= i < |q|
        ensures Lower(q[i]) == Lower(s[i])
      {
        if i > 0 {
          assert q[1..][i - 1] == q[i] && s[1..][i - 1] == s[i];
        }
      }
    }
  }

  lemma {:induction false} PercentSearches(p: string, s: string)
    ensures ILike("%" + p, s) <==> exists k :: 0 <= k <= |s| && ILike(p, s[k..])
  {
    var starred := "%" + p;
    assert starred[1..] == p && s[0..] == s;
    if s != [] {
      PercentSearches(p, s[1..]);
      forall k | 1 <= k <= |s|
        ensures s[1..][k - 1..] == s[k..]
      {
      }
      if k :| 0 <= k <= |s[1..]| && ILike(p, s[1..][k..]) {
        assert s[1..][k..] == s[k + 1..];
      }
      if k :| 0 <= k <= |s| && ILike(p, s[k..]) && !ILike(p, s) {
        assert s[1..][k - 1..] == s[k..];
      }
    }
  }

  /** The ILIKE filter of the Postgres store accepts an identifier exactly when the in-memory
      test `query.lower() in identifier.lower()` does, for every query, wildcards included. */
  lemma ILikeIsSubstring(query: string, identifier: string)
    ensures ILike("%" + Escape(query) + "%", identifier)
       <==> Contains(MapChars(Lower, identifier), MapChars(Lower, query))
  {
    EscapeIsCharacterWise(query);
    var p := EscapeEach(query) + "%";
    assert "%" + Escape(query) + "%" == "%" + p;
    PercentSearches(p, identifier);
    var hay, needle := MapChars(Lower, identifier), MapChars(Lower, query);
    forall k | 0 <= k <= |identifier|
      ensures ILike(p, identifier[k..]) <==> OccursAt(hay, needle, k)
    {
      EscapedPrefix(query, identifier[k..]);
      FoldedPrefixOccurs(query, identifier, k);
    }
    if k :| 0 <= k <= |identifier| && ILike(p, identifier[k..]) {
      assert OccursAt(hay, needle, k);
    }
    if k :| 0 <= k <= |hay| && OccursAt(hay, needle, k) {
      assert ILike(p, identifier[k..]);
    }
  }

  lemma FoldedPrefixOccurs(q: string, s: string, k: nat)
    requires k <= |s|
    ensures FoldedPrefix(q, s[k..]) <==> OccursAt(MapChars(Lower, s), MapChars(Lower, q), k)
  {
    var hay, needle := MapChars(Lower, s), MapChars(Lower, q);
    if OccursAt(hay, needle, k) {
      forall i | 0 <= i < |q|
        ensures Lower(q[i]) == Lower(s[k..][i])
      {
        assert hay[k..k + |needle|][i] == hay[k + i];
      }
    }
  }
}
