/**
 * The three content patterns the renderer matches entries against, both in
 * the sidebar's built-in category filters (src/App.js) and in the entry
 * card's type chip (src/components/EntryCard.js).
 */
module Patterns {
  import opened Text

  predicate StartsWith(s: string, prefix: string) {
    |prefix| <= |s| && s[..|prefix|] == prefix
  }

  /** `prefix` is at the head of `s`, ASCII letters compared without case (the `i` flag). */
  predicate StartsWithIgnoringCase(s: string, prefix: string) {
    |prefix| <= |s| && Lower(s[..|prefix|]) == Lower(prefix)
  }

  /** The scheme, then at least one character that `.` matches. */
  predicate UrlWithScheme(s: string, scheme: string) {
    StartsWithIgnoringCase(s, scheme) && |scheme| < |s| && !IsLineTerminator(s[|scheme|])
  }

  /** `/^https?:\/\/.+/i`: the text opens with `http`, in any case, and goes on past the scheme. */
  function IsUrl(s: string): (r: bool)
    ensures r ==> 7 < |s| && forall k | 0 <= k < 4 :: LowerChar(s[k]) == "http"[k]
  {
    SchemeOpensWithHttp(s, "http://");
    SchemeOpensWithHttp(s, "https://");
    UrlWithScheme(s, "http://") || UrlWithScheme(s, "https://")
  }

  /** A text matching a scheme that starts with `http` opens with `http` in some case. */
  lemma SchemeOpensWithHttp(s: string, scheme: string)
    requires 7 <= |scheme| && scheme[..4] == "http"
    ensures UrlWithScheme(s, scheme) ==> 7 < |s| && forall k | 0 <= k < 4 :: LowerChar(s[k]) == "http"[k]
  {
    if UrlWithScheme(s, scheme) {
      forall k | 0 <= k < 4 ensures LowerChar(s[k]) == "http"[k] {
        assert Lower(s[..|scheme|])[k] == LowerChar(s[..|scheme|][k]);
        assert Lower(scheme)[k] == LowerChar(scheme[k]);
        assert scheme[k] == scheme[..4][k];
      }
    }
  }

  /** `[^\s@]+`: non-empty, no white space, no `@`. */
  predicate EmailPart(s: string) {
    s != [] && forall i | 0 <= i < |s| :: !IsJsWhitespace(s[i]) && s[i] != '@'
  }

  /** `/^[^\s@]+@[^\s@]+\.[^\s@]+$/`: the `@` at `i`, the dot at `j`. */
  function IsEmail(s: string): (r: bool)
    ensures r ==> 5 <= |s| && forall k | 0 <= k < |s| :: !IsJsWhitespace(s[k])
  {
    var r := exists i, j | 0 < i < |s| && i + 1 < j < |s| - 1 ::
      s[i] == '@' && s[j] == '.' && EmailPart(s[..i]) && EmailPart(s[i + 1..j]) && EmailPart(s[j + 1..]);
    assert r ==> forall k | 0 <= k < |s| :: !IsJsWhitespace(s[k]) by {
      if r {
        var i, j :| 0 < i < |s| && i + 1 < j < |s| - 1 &&
          s[i] == '@' && s[j] == '.' && EmailPart(s[..i]) && EmailPart(s[i + 1..j]) && EmailPart(s[j + 1..]);
        EmailPartsHaveNoSpace(s, i, j);
      }
    }
    r
  }

  /** Three parts free of white space, joined by `@` and `.`, leave none in the whole. */
  lemma EmailPartsHaveNoSpace(s: string, i: int, j: int)
    requires 0 < i < |s| && i + 1 < j < |s| - 1 && s[i] == '@' && s[j] == '.'
    requires EmailPart(s[..i]) && EmailPart(s[i + 1..j]) && EmailPart(s[j + 1..])
    ensures forall k | 0 <= k < |s| :: !IsJsWhitespace(s[k])
  {
    forall k | 0 <= k < |s| ensures !IsJsWhitespace(s[k]) {
      if k < i {
        assert s[k] == s[..i][k];
      } else if i < k < j {
        assert s[k] == s[i + 1..j][k - i - 1];
      } else if k > j {
        assert s[k] == s[j + 1..][k - j - 1];
      }
    }
  }

  const CodeKeywords: seq<string> := ["function", "const", "let", "var", "class", "import", "export", "if", "for", "while"]

  /** `/^(function|const|let|var|class|import|export|if|for|while)/`: no word boundary, case matters. */
  function IsCode(s: string): (r: bool)
    ensures r ==> 2 <= |s| && 'a' <= s[0] <= 'z'
    ensures r ==> !IsUrl(s)
  {
    var r := exists k | 0 <= k < |CodeKeywords| :: StartsWith(s, CodeKeywords[k]);
    assert r ==> 2 <= |s| && s[0] in "fclview" by {
      if r {
        var k :| 0 <= k < |CodeKeywords| && StartsWith(s, CodeKeywords[k]);
        assert s[0] == CodeKeywords[k][0];
      }
    }
    r
  }

  /** An address matched by the email pattern holds exactly one `@`. */
  lemma EmailHasOneAt(s: string)
    requires IsEmail(s)
    ensures '@' in s
    ensures forall k1, k2 | 0 <= k1 < k2 < |s| :: s[k1] != '@' || s[k2] != '@'
  {
    var i, j :| 0 < i < |s| && i + 1 < j < |s| - 1 &&
      s[i] == '@' && s[j] == '.' && EmailPart(s[..i]) && EmailPart(s[i + 1..j]) && EmailPart(s[j + 1..]);
    forall k | 0 <= k < |s| && k != i ensures s[k] != '@' {
      if k < i {
        assert s[k] == s[..i][k];
      } else if k < j {
        assert s[k] == s[i + 1..j][k - i - 1];
      } else if k > j {
        assert s[k] == s[j + 1..][k - j - 1];
      }
    }
  }

  /** The code pattern has no word boundary: "format" starts like `for`. */
  lemma FormatCountsAsCode()
    ensures IsCode("format")
  {
    assert StartsWith("format", CodeKeywords[8]);
  }
}
