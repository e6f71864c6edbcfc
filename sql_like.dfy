/**
 The SQL LIKE operator as the name search uses it, with MySQL's default
 escape character: '%' matches any run of characters, '_' exactly one,
 and '\' makes the character after it literal. Comparison is character by
 character (a binary collation).
 */
module SqlLike {

  predicate IsLikeSpecial(c: char) {
    c == '%' || c == '_' || c == '\\'
  }

  /** The pattern text holds no wildcard and no escape character. */
  predicate IsLiteralText(q: string) {
    forall i :: 0 <= i < |q| ==> !IsLikeSpecial(q[i])
  }

  /**
   Whether s as a whole matches pattern p. A pattern with no wildcard and
   no escape character matches only the string equal to it.
   */
  function Like(s: string, p: string): (b: bool)
    ensures IsLiteralText(p) ==> (b <==> s == p)
    decreases |s| + |p|
  {
    if p == [] then s == []
    else if p[0] == '%' then Like(s, p[1..]) || (s != [] && Like(s[1..], p))
    else if p[0] == '_' then s != [] && Like(s[1..], p[1..])
    else if p[0] == '\\' && |p| >= 2 then s != [] && s[0] == p[1] && Like(s[1..], p[2..])
    else
      assert IsLiteralText(p) ==> IsLiteralText(p[1..]) by {
        forall i | 0 <= i < |p[1..]| ensures p[1..][i] == p[i + 1] { }
      }
      assert s != [] ==> (s == p <==> s[0] == p[0] && s[1..] == p[1..]);
      s != [] && s[0] == p[0] && Like(s[1..], p[1..])
  }

  /** q occurs in s as a contiguous substring: some suffix of s starts with q. */
  ghost predicate Contains(s: string, q: string) {
    exists i :: 0 <= i <= |s| && q <= s[i..]
  }

  /**
   For a query without wildcards or escapes, the pattern "%" + q + "%"
   matches exactly the strings containing q.
   */
  lemma SearchPatternMatchesContaining(q: string)
    ensures IsLiteralText(q) ==> forall s :: Like(s, "%" + q + "%") <==> Contains(s, q)
  {
    if IsLiteralText(q) {
      forall s ensures Like(s, "%" + q + "%") <==> Contains(s, q) {
        SearchPatternIsSubstring(s, q);
      }
    }
  }

  /** A lone '%' matches every string. */
  lemma {:induction false} PercentMatchesAll(s: string)
    ensures Like(s, "%")
  {
    if s != [] {
      PercentMatchesAll(s[1..]);
    }
  }

  /** Literal text followed by '%' matches exactly the strings it starts. */
  lemma {:induction false} LiteralThenPercent(s: string, q: string)
    requires IsLiteralText(q)
    ensures Like(s, q + "%") <==> q <= s
  {
    if q == [] {
      assert q + "%" == "%";
      PercentMatchesAll(s);
    } else {
      assert (q + "%")[1..] == q[1..] + "%";
      assert IsLiteralText(q[1..]) by {
        forall i | 0 <= i < |q[1..]| ensures !IsLikeSpecial(q[1..][i]) {
          assert q[1..][i] == q[i + 1];
        }
      }
      if s != [] {
        LiteralThenPercent(s[1..], q[1..]);
        assert q <= s <==> q[0] == s[0] && q[1..] <= s[1..];
      }
    }
  }

  /** A leading '%' lets the rest of the pattern match any suffix. */
  lemma {:induction false} PercentThen(s: string, p: string)
    ensures Like(s, "%" + p) <==> exists i :: 0 <= i <= |s| && Like(s[i..], p)
  {
    assert ("%" + p)[1..] == p;
    assert s[0..] == s;
    if s != [] {
      PercentThen(s[1..], p);
      if exists i :: 0 <= i <= |s| && Like(s[i..], p) {
        var i :| 0 <= i <= |s| && Like(s[i..], p);
        if i > 0 {
          assert s[1..][i - 1..] == s[i..];
        }
      }
      if exists j :: 0 <= j <= |s[1..]| && Like(s[1..][j..], p) {
        var j :| 0 <= j <= |s[1..]| && Like(s[1..][j..], p);
        assert s[1..][j..] == s[j + 1..];
      }
    }
  }

  /**
   The pattern "%" + q + "%" that a name search binds matches exactly the
   names that contain q, when q holds no wildcard or escape character.
   */
  lemma SearchPatternIsSubstring(s: string, q: string)
    requires IsLiteralText(q)
    ensures Like(s, "%" + q + "%") <==> Contains(s, q)
  {
    assert "%" + q + "%" == "%" + (q + "%");
    PercentThen(s, q + "%");
    if Like(s, "%" + q + "%") {
      var i :| 0 <= i <= |s| && Like(s[i..], q + "%");
      LiteralThenPercent(s[i..], q);
    }
    if Contains(s, q) {
      var i :| 0 <= i <= |s| && q <= s[i..];
      LiteralThenPercent(s[i..], q);
    }
  }
}
