/** Shell-style matching as Python's fnmatch.fnmatch does it on POSIX: the
    whole name must match, matching is case-sensitive, `*` matches any run of
    characters (the separator `/` included), `?` matches exactly one
    character and every other character matches itself. Bracket classes
    `[...]` are not modelled (see the README); the lemmas below are stated
    for patterns without `[` so that they hold of fnmatch as well. */
module Glob {
  import opened Strings

  /** `fnmatch.fnmatch(s, p)` */
  predicate Match(s: string, p: string)
    decreases |p|, |s|
  {
    if p == [] then s == []
    else if p[0] == '*' then Match(s, p[1..]) || (s != [] && Match(s[1..], p))
    else s != [] && (p[0] == '?' || p[0] == s[0]) && Match(s[1..], p[1..])
  }

  /** p matches only literally: it holds no `*`, `?` or `[`. */
  predicate Literal(p: string) {
    forall i :: 0 <= i < |p| ==> p[i] != '*' && p[i] != '?' && p[i] != '['
  }

  /** `*` matches every string, including ones that hold `/`. */
  lemma {:induction false} StarMatchesAll(s: string)
    ensures Match(s, "*")
  {
    if s != [] {
      StarMatchesAll(s[1..]);
    }
  }

  /** A pattern without wildcards matches exactly itself. */
  lemma {:induction false} LiteralMatchesItself(s: string, p: string)
    requires Literal(p)
    ensures Match(s, p) <==> s == p
  {
    if p != [] && s != [] {
      LiteralMatchesItself(s[1..], p[1..]);
      if s[1..] == p[1..] && s[0] == p[0] {
        assert s == [s[0]] + s[1..];
        assert p == [p[0]] + p[1..];
      }
    }
  }

  /** `?` matches exactly the one-character strings. */
  lemma QuestionMatchesOneChar(s: string)
    ensures Match(s, "?") <==> |s| == 1
  {
  }

  /** A literal prefix followed by `*` matches exactly the strings that start
      with that prefix, as `__pycache__/` then a star matches
      `__pycache__/file.pyc`. */
  lemma {:induction false} PrefixStar(s: string, lit: string)
    requires Literal(lit)
    ensures Match(s, lit + "*") <==> StartsWith(s, lit)
  {
    if lit == [] {
      assert lit + "*" == "*";
      StarMatchesAll(s);
    } else {
      assert (lit + "*")[1..] == lit[1..] + "*";
      if s != [] {
        PrefixStar(s[1..], lit[1..]);
        if s[0] == lit[0] && StartsWith(s[1..], lit[1..]) {
          assert s[..|lit|] == [s[0]] + s[1..][..|lit| - 1];
          assert lit == [lit[0]] + lit[1..];
        }
        if StartsWith(s, lit) {
          assert s[1..][..|lit| - 1] == s[..|lit|][1..];
        }
      }
    }
  }

  /** `*` followed by a literal suffix matches exactly the strings that end
      with that suffix: `*.log` matches `app.log` and `logs/app.log`. */
  lemma {:induction false} StarSuffix(s: string, lit: string)
    requires Literal(lit)
    ensures Match(s, "*" + lit) <==> EndsWith(s, lit)
  {
    var p := "*" + lit;
    assert p[1..] == lit;
    LiteralMatchesItself(s, lit);
    if s != [] {
      StarSuffix(s[1..], lit);
      if EndsWith(s, lit) && s != lit {
        assert |lit| < |s|;
        assert s[1..][|s| - 1 - |lit|..] == s[|s| - |lit|..];
      }
      if EndsWith(s[1..], lit) {
        assert s[1..][|s| - 1 - |lit|..] == s[|s| - |lit|..];
      }
    }
  }
}
