/**
 * SQLite's built-in `LIKE` operator, as `searchEntries` uses it: `%` matches
 * any run of characters, `_` exactly one, and every other character matches
 * itself with ASCII letters compared without case. No ESCAPE clause is given,
 * so a `%` or `_` typed in the search box is a wildcard too.
 */
module SqlLike {
  import opened Text

  /** The number of pattern characters that each consume exactly one text character. */
  function Fixed(p: string): nat {
    if p == [] then 0 else (if p[0] == '%' then 0 else 1) + Fixed(p[1..])
  }

  /**
   * `s LIKE p`. A match needs one text character per pattern character other
   * than `%`, and a pattern without `%` matches only texts of its own length.
   */
  function Like(s: string, p: string): (r: bool)
    ensures r ==> Fixed(p) <= |s|
    ensures r && '%' !in p ==> |s| == |p|
    decreases |s| + |p|
  {
    if p == [] then s == []
    else if p[0] == '%' then Like(s, p[1..]) || (s != [] && Like(s[1..], p))
    else s != [] && (p[0] == '_' || LowerChar(s[0]) == LowerChar(p[0])) && Like(s[1..], p[1..])
  }

  /** The pattern `searchEntries` binds for a query: `%${query}%`. */
  function ContainsPattern(query: string): string {
    "%" + query + "%"
  }

  /** A query with no wildcard characters in it. */
  predicate IsLiteral(q: string) {
    forall i | 0 <= i < |q| :: q[i] != '%' && q[i] != '_'
  }

  lemma {:induction false} LikeAnything(s: string)
    ensures Like(s, "%")
  {
    if s != [] {
      LikeAnything(s[1..]);
    }
  }

  /** A literal followed by `%` matches exactly the strings that start with the literal, up to ASCII case. */
  lemma {:induction false} LikeLiteralPrefix(t: string, q: string)
    requires IsLiteral(q)
    ensures Like(t, q + "%") <==> |q| <= |t| && Lower(t[..|q|]) == Lower(q)
  {
    if q == [] {
      assert q + "%" == "%";
      LikeAnything(t);
      assert t[..0] == [];
    } else {
      assert (q + "%")[1..] == q[1..] + "%";
      assert IsLiteral(q[1..]);
      if t != [] {
        LikeLiteralPrefix(t[1..], q[1..]);
        if |q| <= |t| {
          assert t[1..][..|q| - 1] == t[..|q|][1..];
          var a, b := Lower(t[..|q|]), Lower(q);
          assert a == b <==> a[0] == b[0] && a[1..] == b[1..];
          assert a[1..] == Lower(t[1..][..|q| - 1]);
          assert b[1..] == Lower(q[1..]);
        }
      }
    }
  }

  /** A leading `%` lets the rest of the pattern match any suffix. */
  lemma {:induction false} LikeAnySuffix(s: string, r: string)
    ensures Like(s, "%" + r) <==> exists i :: 0 <= i <= |s| && Like(s[i..], r)
  {
    assert ("%" + r)[1..] == r;
    assert s[0..] == s;
    if s != [] {
      LikeAnySuffix(s[1..], r);
      forall i | 0 <= i <= |s| - 1 ensures s[1..][i..] == s[i + 1..] { }
      if exists i :: 0 <= i <= |s| && Like(s[i..], r) {
        var i :| 0 <= i <= |s| && Like(s[i..], r);
        if i > 0 {
          assert Like(s[1..][i - 1..], r);
        }
      }
    }
  }

  lemma MatchAtIffOccursAt(s: string, q: string, i: int)
    requires IsLiteral(q) && 0 <= i <= |s|
    ensures Like(s[i..], q + "%") <==> OccursAt(Lower(s), Lower(q), i)
  {
    LikeLiteralPrefix(s[i..], q);
    if i + |q| <= |s| {
      assert Lower(s)[i..i + |q|] == Lower(s[i..][..|q|]);
    }
  }

  /**
   * For a query without wildcards, the store's `LIKE '%query%'` is the
   * renderer's `content.toLowerCase().includes(query.toLowerCase())`, both
   * taken on ASCII letters.
   */
  lemma SearchPatternIsIncludes(s: string, q: string)
    requires IsLiteral(q)
    ensures Like(s, ContainsPattern(q)) <==> Includes(Lower(s), Lower(q))
  {
    assert ContainsPattern(q) == "%" + (q + "%");
    LikeAnySuffix(s, q + "%");
    if Like(s, ContainsPattern(q)) {
      var i :| 0 <= i <= |s| && Like(s[i..], q + "%");
      MatchAtIffOccursAt(s, q, i);
    }
    if Includes(Lower(s), Lower(q)) {
      var i :| OccursAt(Lower(s), Lower(q), i);
      MatchAtIffOccursAt(s, q, i);
    }
  }

  /** A lone `_` in the search box matches every non-empty content. */
  lemma UnderscoreMatchesAnyContent(s: string)
    requires s != []
    ensures Like(s, ContainsPattern("_"))
  {
    assert ContainsPattern("_") == "%" + ("_" + "%");
    assert ("_" + "%")[1..] == "%";
    LikeAnything(s[1..]);
    assert Like(s[0..], "_" + "%");
    LikeAnySuffix(s, "_" + "%");
  }
}
