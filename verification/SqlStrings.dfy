/** The two PostgreSQL string operations the folder repository relies on: `LIKE` and `replace`. */
module SqlStrings {

  /** `s LIKE p` with the default escape character: `%` matches any run of characters, `_` exactly
      one, and a backslash makes the next pattern character literal. */
  predicate Like(s: string, p: string)
    decreases |s| + |p|
  {
    if p == [] then s == []
    else if p[0] == '%' then Like(s, p[1..]) || (s != [] && Like(s[1..], p))
    else if p[0] == '_' then s != [] && Like(s[1..], p[1..])
    else if p[0] == '\\' then |p| > 1 && s != [] && s[0] == p[1] && Like(s[1..], p[2..])
    else s != [] && s[0] == p[0] && Like(s[1..], p[1..])
  }

  /** `replace(s, from, to)`: every non-overlapping occurrence, scanned from the left. */
  function Replace(s: string, from: string, to: string): (r: string)
    decreases |s|
  {
    if from == [] || |s| < |from| then s
    else if s[..|from|] == from then to + Replace(s[|from|..], from, to)
    else [s[0]] + Replace(s[1..], from, to)
  }

  predicate NoWildcard(p: string) {
    '%' !in p && '_' !in p && '\\' !in p
  }

  lemma {:induction false} LikeAnything(s: string)
    ensures Like(s, "%")
  {
    if s != [] {
      LikeAnything(s[1..]);
    }
  }

  /** A pattern without wildcards, followed by `/%`, is a plain prefix test. */
  lemma {:induction false} LikeIsPrefixTest(s: string, p: string)
    requires NoWildcard(p)
    ensures Like(s, p + "/%") <==> p + "/" <= s
  {
    var q := p + "/%";
    if p == [] {
      assert q == "/%" && q[1..] == "%";
      if s != [] {
        LikeAnything(s[1..]);
      }
    } else {
      assert q[0] == p[0] && q[1..] == p[1..] + "/%";
      assert p[0] in p;
      if s != [] {
        assert NoWildcard(p[1..]);
        LikeIsPrefixTest(s[1..], p[1..]);
        assert p + "/" == [p[0]] + (p[1..] + "/");
        if p[0] == s[0] {
          assert s == [s[0]] + s[1..];
          assert p + "/" <= s <==> p[1..] + "/" <= s[1..];
        }
      }
    }
  }

  /** Text that lacks the first character of `from` holds no occurrence of `from`. */
  lemma {:induction false} ReplaceNothing(s: string, from: string, to: string)
    requires from != [] && from[0] !in s
    ensures Replace(s, from, to) == s
    decreases |s|
  {
    if |s| >= |from| {
      assert s[..|from|][0] == s[0];
      assert s[0] in s;
      ReplaceNothing(s[1..], from, to);
      assert s == [s[0]] + s[1..];
    }
  }

  /** When `from` leads the text and its first character never recurs, only the prefix changes. */
  lemma ReplacePrefixOnly(from: string, rest: string, to: string)
    requires from != [] && from[0] !in rest
    ensures Replace(from + rest, from, to) == to + rest
  {
    var s := from + rest;
    assert s[..|from|] == from && s[|from|..] == rest;
    ReplaceNothing(rest, from, to);
  }
}
