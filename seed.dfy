/**
 * The seed check of `main`: the command-line URL must match
 * `^https?://[^\s/$.?#].[^\s]*$` under Python's `re.match`.
 *
 * Python reads this pattern with three details that matter here: `\s` matches
 * every character for which `str.isspace` holds, `.` matches any character
 * but a newline (whitespace included), and `$` matches at the end of the
 * string or just before a newline that ends it.
 */
module SeedUrl {

  /** `str.isspace`, the characters `\s` matches in a `str` pattern. */
  predicate IsSpace(c: char)
  {
    var n := c as int;
    || 9 <= n <= 13
    || 28 <= n <= 32
    || n == 0x85 || n == 0xA0 || n == 0x1680
    || 0x2000 <= n <= 0x200A
    || n == 0x2028 || n == 0x2029 || n == 0x202F || n == 0x205F || n == 0x3000
  }

  /** `[^\s/$.?#]`: the first character after the scheme. */
  predicate IsHostStart(c: char)
  {
    !IsSpace(c) && c !in "/$.?#"
  }

  /** `[^\s]*` over the whole of `s`. */
  predicate NoSpace(s: string)
  {
    forall i :: 0 <= i < |s| ==> !IsSpace(s[i])
  }

  /** The length of the `https?://` prefix of `s`, or 0 when there is none. */
  function SchemeLength(s: string): (n: nat)
  {
    if "http://" <= s then 7 else if "https://" <= s then 8 else 0
  }

  /** `re.match(r"^https?://[^\s/$.?#].[^\s]*$", s) is not None`, decided left to right. */
  function SeedMatches(s: string): (ok: bool)
  {
    var k := SchemeLength(s);
    && k > 0
    && |s| >= k + 2
    && IsHostStart(s[k])
    && s[k + 1] != '\n'
    && (|| NoSpace(s[k + 2..])
        || (|s| > k + 2 && s[|s| - 1] == '\n' && NoSpace(s[k + 2..|s| - 1])))
  }

  /**
   * `s` is the scheme, one host-start character, one non-newline character,
   * a run without whitespace and, for `$`, either nothing or a final newline.
   */
  ghost predicate Decomposes(s: string, scheme: string, c1: char, c2: char, tail: string, end: string)
  {
    && (scheme == "http://" || scheme == "https://")
    && (end == "" || end == "\n")
    && s == scheme + [c1, c2] + tail + end
    && IsHostStart(c1)
    && c2 != '\n'
    && NoSpace(tail)
  }

  /** The pattern, read piece by piece as the regular expression is written. */
  ghost predicate MatchesPattern(s: string)
  {
    exists scheme, c1, c2, tail, end :: Decomposes(s, scheme, c1, c2, tail, end)
  }

  /** Every string the left-to-right check accepts is described by the pattern. */
  lemma AcceptedMatchesPattern(s: string)
    requires SeedMatches(s)
    ensures MatchesPattern(s)
  {
    var k := SchemeLength(s);
    var scheme := s[..k];
    if NoSpace(s[k + 2..]) {
      assert s == scheme + [s[k], s[k + 1]] + s[k + 2..] + "";
      assert Decomposes(s, scheme, s[k], s[k + 1], s[k + 2..], "");
    } else {
      assert s == scheme + [s[k], s[k + 1]] + s[k + 2..|s| - 1] + "\n";
      assert Decomposes(s, scheme, s[k], s[k + 1], s[k + 2..|s| - 1], "\n");
    }
  }

  /** Every string the pattern describes is accepted by the left-to-right check. */
  lemma PatternIsAccepted(s: string, scheme: string, c1: char, c2: char, tail: string, end: string)
    requires Decomposes(s, scheme, c1, c2, tail, end)
    ensures SeedMatches(s)
  {
    var k := |scheme|;
    assert s[..k] == scheme;
    if scheme == "https://" {
      assert s[4] == 's';
    }
    assert SchemeLength(s) == k;
    assert s[k] == c1 && s[k + 1] == c2;
    if end == "" {
      assert s[k + 2..] == tail;
    } else {
      assert s[k + 2..|s| - 1] == tail;
      assert s[|s| - 1] == '\n';
    }
  }

  /** The left-to-right check accepts exactly the strings the pattern describes. */
  lemma SeedMatchesPattern(s: string)
    ensures SeedMatches(s) <==> MatchesPattern(s)
  {
    if SeedMatches(s) {
      AcceptedMatchesPattern(s);
    }
    if MatchesPattern(s) {
      var scheme, c1, c2, tail, end :| Decomposes(s, scheme, c1, c2, tail, end);
      PatternIsAccepted(s, scheme, c1, c2, tail, end);
    }
  }

  lemma PlainWordIsRejected()
    ensures !SeedMatches("not-a-url")
  {
    assert "not-a-url"[0] == 'n';
  }

  lemma SiteUrlIsAccepted()
    ensures SeedMatches("https://en.wikipedia.org")
  {
    var tail := ".wikipedia.org";
    forall i | 0 <= i < |tail| ensures !IsSpace(tail[i]) {
      assert 33 <= tail[i] as int <= 126;
    }
    assert "https://en.wikipedia.org" == "https://" + ['e', 'n'] + tail + "";
    PatternIsAccepted("https://en.wikipedia.org", "https://", 'e', 'n', tail, "");
  }

  /** The `.` lets whitespace through as the second character of the host. */
  lemma SpaceAsSecondCharacterIsAccepted()
    ensures SeedMatches("http://a b")
  {
  }

  /** From the third character after `://` on, whitespace is refused. */
  lemma LaterSpaceIsRejected()
    ensures !SeedMatches("http://ab c")
  {
    var s := "http://ab c";
    assert "http://" <= s;
    assert s[9..][0] == ' ';
    assert s[|s| - 1] == 'c';
  }

  /** `$` also matches before a newline that ends the string. */
  lemma FinalNewlineIsAccepted()
    ensures SeedMatches("http://ab\n")
  {
  }

  /** An empty host is refused: the character after `://` may not be `/`. */
  lemma EmptyHostIsRejected()
    ensures !SeedMatches("http:///wiki")
  {
  }
}
