/** The SQL LIKE / ILIKE pattern match that the admin payee search delegates to
    PostgreSQL. `%` matches any run of characters and `_` any one character;
    every other pattern character matches itself. */
module SqlLike {
  import opened Text

  predicate IsWildcard(c: char)
  {
    c == '%' || c == '_'
  }

  /** A pattern fragment with no wildcard in it. */
  predicate Literal(s: string)
  {
    forall i :: 0 <= i < |s| ==> !IsWildcard(s[i])
  }

  predicate Like(t: string, p: string)
    decreases |p| + |t|
  {
    if p == [] then t == []
    else if p[0] == '%' then Like(t, p[1..]) || (t != [] && Like(t[1..], p))
    else t != [] && (p[0] == '_' || p[0] == t[0]) && Like(t[1..], p[1..])
  }

  /** PostgreSQL ILIKE: LIKE after folding pattern and text to lower case. */
  predicate ILike(t: string, p: string)
  {
    Like(LowerAll(t), LowerAll(p))
  }

  /** The pattern `%<s>%` that the admin search builds from its search string;
      `%` and `_` inside `s` are not escaped. */
  function ContainsPattern(s: string): string
  {
    "%" + s + "%"
  }

  lemma {:induction false} PercentMatchesAll(t: string)
    ensures Like(t, "%")
  {
    if t != [] {
      PercentMatchesAll(t[1..]);
    }
  }

  /** A literal fragment followed by `%` matches exactly the texts it starts. */
  lemma {:induction false} LiteralPrefixMatch(t: string, q: string)
    requires Literal(q)
    ensures Like(t, q + "%") <==> StartsWith(t, q)
  {
    if q == [] {
      assert q + "%" == "%";
      PercentMatchesAll(t);
    } else {
      assert (q + "%")[1..] == q[1..] + "%";
      LiteralPrefixMatch(if t == [] then t else t[1..], q[1..]);
      if t != [] && t[0] == q[0] && StartsWith(t[1..], q[1..]) {
        assert t[..|q|] == [t[0]] + t[1..][..|q| - 1];
      }
      if StartsWith(t, q) {
        assert t[0] == q[0];
        assert t[1..][..|q| - 1] == q[1..];
      }
    }
  }

  /** A leading `%` lets the rest of the pattern match any suffix of the text. */
  lemma {:induction false} LeadingPercentMatch(t: string, r: string)
    ensures Like(t, "%" + r) <==> exists i :: 0 <= i <= |t| && Like(t[i..], r)
  {
    assert ("%" + r)[1..] == r;
    if t == [] {
      assert t[0..] == t;
    } else {
      LeadingPercentMatch(t[1..], r);
      if Like(t, "%" + r) {
        if Like(t, r) {
          assert t[0..] == t;
        } else {
          var i :| 0 <= i <= |t[1..]| && Like(t[1..][i..], r);
          assert t[1..][i..] == t[i + 1..];
        }
      }
      if exists i :: 0 <= i <= |t| && Like(t[i..], r) {
        var i :| 0 <= i <= |t| && Like(t[i..], r);
        if i == 0 {
          assert t[0..] == t;
        } else {
          assert t[1..][i - 1..] == t[i..];
        }
      }
    }
  }

  /** For a search string without wildcards, `%s%` is a plain substring test. */
  lemma ContainsPatternIsSubstring(t: string, s: string)
    requires Literal(s)
    ensures Like(t, ContainsPattern(s)) <==> Contains(t, s)
  {
    assert ContainsPattern(s) == "%" + (s + "%");
    LeadingPercentMatch(t, s + "%");
    if Like(t, ContainsPattern(s)) {
      var i :| 0 <= i <= |t| && Like(t[i..], s + "%");
      LiteralPrefixMatch(t[i..], s);
      assert OccursAt(t, s, i);
    }
    if Contains(t, s) {
      var i :| 0 <= i <= |t| - |s| && OccursAt(t, s, i);
      LiteralPrefixMatch(t[i..], s);
      assert t[i..][..|s|] == t[i..i + |s|];
    }
  }

  /** The admin search predicate: for a search string without wildcards, the
      payee name matches exactly when it contains the search string, ignoring
      the case of ASCII letters. */
  lemma ILikeIsCaseInsensitiveSubstring(name: string, s: string)
    requires Literal(s)
    ensures ILike(name, ContainsPattern(s)) <==> Contains(LowerAll(name), LowerAll(s))
  {
    assert LowerAll(ContainsPattern(s)) == ContainsPattern(LowerAll(s));
    ContainsPatternIsSubstring(LowerAll(name), LowerAll(s));
  }

  /** `_` in the search string is not escaped: "j_hn" finds both "John" and
      "Jahn", although neither contains the text "j_hn". */
  lemma UnderscoreIsAWildcard()
    ensures ILike("John", ContainsPattern("j_hn")) && ILike("Jahn", ContainsPattern("j_hn"))
    ensures !Contains(LowerAll("John"), "j_hn")
  {
    assert LowerAll(ContainsPattern("j_hn")) == "%j_hn%";
    assert LowerAll("John") == "john";
    assert LowerAll("Jahn") == "jahn";
    OneLetterThenHn("john", 'o');
    OneLetterThenHn("jahn", 'a');
    assert !OccursAt("john", "j_hn", 0);
  }

  lemma OneLetterThenHn(t: string, c: char)
    requires t == ['j', c, 'h', 'n'] && c != '%'
    ensures Like(t, "%j_hn%")
  {
    assert Like("", "%");
    assert Like("n", "n%") by { assert "n"[1..] == "" && "n%"[1..] == "%"; }
    assert Like("hn", "hn%") by { assert "hn"[1..] == "n" && "hn%"[1..] == "n%"; }
    assert Like(t[1..], "_hn%") by { assert t[1..][1..] == "hn" && "_hn%"[1..] == "hn%"; }
    assert Like(t, "j_hn%") by { assert "j_hn%"[1..] == "_hn%"; }
    assert "%j_hn%"[1..] == "j_hn%";
  }
}
