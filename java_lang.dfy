/**
 The few pieces of java.lang behaviour the student model depends on:
 nullable String references, String.trim, String.compareTo,
 String.hashCode and the 32-bit wrap-around of Java int arithmetic.
 */
module JavaLang {

  /** A value that may be absent; None stands for a Java null reference. */
  datatype Option<+T> = None | Some(value: T)

  /** A Java String reference: None is null, Some(s) a string object. */
  type JString = Option<string>

  const INT_MIN: int := -0x8000_0000
  const INT_MAX: int := 0x7fff_ffff
  const INT_MODULUS: int := 0x1_0000_0000

  // ---------------------------------------------------------------------
  // 32-bit int arithmetic
  // ---------------------------------------------------------------------

  /** The Java int that an exact integer result wraps around to. */
  function Wrap32(x: int): (r: int)
    ensures INT_MIN <= r <= INT_MAX
    ensures (x - r) % INT_MODULUS == 0
    ensures INT_MIN <= x <= INT_MAX ==> r == x
  {
    (x - INT_MIN) % INT_MODULUS + INT_MIN
  }

  /** Results that differ by a multiple of 2^32 wrap to the same int. */
  lemma {:induction false} Wrap32Congruent(x: int, y: int)
    requires (x - y) % INT_MODULUS == 0
    ensures Wrap32(x) == Wrap32(y)
  {
    var t := (x - y) / INT_MODULUS;
    assert x - INT_MIN == (y - INT_MIN) + INT_MODULUS * t;
    ModMultipleShift(y - INT_MIN, t);
  }

  lemma {:induction false} ModMultipleShift(a: int, t: int)
    ensures (a + INT_MODULUS * t) % INT_MODULUS == a % INT_MODULUS
  {
    var q := a / INT_MODULUS;
    var r := a % INT_MODULUS;
    assert a + INT_MODULUS * t == INT_MODULUS * (q + t) + r;
  }

  // ---------------------------------------------------------------------
  // String.trim
  // ---------------------------------------------------------------------

  /** String.trim drops characters whose code is at most U+0020. */
  predicate IsTrimmable(c: char) {
    c <= ' '
  }

  /** The suffix of s left after dropping its leading trimmable characters. */
  function TrimStart(s: string): (r: string)
    ensures |r| <= |s| && r == s[|s| - |r|..]
    ensures forall i :: 0 <= i < |s| - |r| ==> IsTrimmable(s[i])
    ensures r != [] ==> !IsTrimmable(r[0])
  {
    if s != [] && IsTrimmable(s[0]) then TrimStart(s[1..]) else s
  }

  /** The prefix of s left after dropping its trailing trimmable characters. */
  function TrimEnd(s: string): (r: string)
    ensures |r| <= |s| && r == s[..|r|]
    ensures forall i :: |r| <= i < |s| ==> IsTrimmable(s[i])
    ensures r != [] ==> !IsTrimmable(r[|r| - 1])
  {
    if s != [] && IsTrimmable(s[|s| - 1]) then TrimEnd(s[..|s| - 1]) else s
  }

  /**
   Dropping a trimmable prefix and then a trimmable tail leaves a piece of
   s before and after which everything is trimmable, and whose ends are not.
   */
  lemma TrimmedPiece(s: string, t: string, r: string)
    requires |t| <= |s| && t == s[|s| - |t|..]
    requires forall k :: 0 <= k < |s| - |t| ==> IsTrimmable(s[k])
    requires |r| <= |t| && r == t[..|r|]
    requires forall k :: |r| <= k < |t| ==> IsTrimmable(t[k])
    requires t != [] ==> !IsTrimmable(t[0])
    requires r != [] ==> !IsTrimmable(r[|r| - 1])
    ensures r != [] ==> !IsTrimmable(r[0]) && !IsTrimmable(r[|r| - 1])
    ensures var i := |s| - |t|;
      && 0 <= i <= |s| - |r| && r <= s[i..]
      && (forall k :: 0 <= k < i ==> IsTrimmable(s[k]))
      && (forall k :: i + |r| <= k < |s| ==> IsTrimmable(s[k]))
  {
    var i := |s| - |t|;
    forall k | i + |r| <= k < |s| ensures IsTrimmable(s[k]) {
      assert s[k] == t[k - i];
    }
    assert r <= s[i..];
    assert r != [] ==> r[0] == t[0];
  }

  /**
   String.trim: the contiguous piece of s that starts where the leading run
   of characters up to U+0020 ends, and after which every character is at
   most U+0020; a non-empty result starts and ends with a character above
   U+0020.
   */
  function Trim(s: string): (r: string)
    ensures var i := |s| - |TrimStart(s)|;
      && 0 <= i <= |s| - |r| && r <= s[i..]
      && (forall k :: 0 <= k < i ==> IsTrimmable(s[k]))
      && (forall k :: i + |r| <= k < |s| ==> IsTrimmable(s[k]))
    ensures r != [] ==> !IsTrimmable(r[0]) && !IsTrimmable(r[|r| - 1])
  {
    var t := TrimStart(s);
    var r := TrimEnd(t);
    TrimmedPiece(s, t, r);
    r
  }

  /** A string trims to the empty string exactly when all its characters are trimmable. */
  lemma TrimEmptyIffAllTrimmable(s: string)
    ensures Trim(s) == [] <==> forall i :: 0 <= i < |s| ==> IsTrimmable(s[i])
  {
    var t := TrimStart(s);
    // what TrimStart keeps starts with a character of s that is not trimmable
    assert t != [] ==> t[0] == s[|s| - |t|] && !IsTrimmable(t[0]);
  }

  // ---------------------------------------------------------------------
  // String.compareTo
  // ---------------------------------------------------------------------

  /**
   String.compareTo: the difference of the first pair of characters at
   which a and b differ, or the difference of their lengths when one is a
   prefix of the other.
   */
  function CompareStrings(a: string, b: string): (c: int)
    ensures c == 0 <==> a == b
  {
    if a == [] || b == [] then |a| - |b|
    else if a[0] != b[0] then a[0] as int - b[0] as int
    else
      assert a == [a[0]] + a[1..] && b == [b[0]] + b[1..];
      CompareStrings(a[1..], b[1..])
  }

  /** The strict order String.compareTo induces: a sorts before b. */
  predicate StrLess(a: string, b: string) {
    CompareStrings(a, b) < 0
  }

  /** Swapping the arguments of compareTo negates its result exactly. */
  lemma {:induction false} CompareStringsAntisymmetric(a: string, b: string)
    ensures CompareStrings(b, a) == -CompareStrings(a, b)
  {
    if a != [] && b != [] && a[0] == b[0] {
      CompareStringsAntisymmetric(a[1..], b[1..]);
    }
  }

  /** The order is transitive. */
  lemma {:induction false} StrLessTransitive(a: string, b: string, c: string)
    requires StrLess(a, b) && StrLess(b, c)
    ensures StrLess(a, c)
  {
    if a != [] && b != [] && c != [] && a[0] == b[0] && b[0] == c[0] {
      StrLessTransitive(a[1..], b[1..], c[1..]);
    }
  }

  /**
   The lexicographic order on strings, defined directly: a is a proper
   prefix of b, or at the first index where they differ a has the smaller
   character.
   */
  ghost predicate LexLess(a: string, b: string) {
    || (|a| < |b| && a == b[..|a|])
    || exists i :: 0 <= i < |a| && i < |b| && a[..i] == b[..i] && a[i] < b[i]
  }

  /** k is where a and b first differ, or the length of the shorter one. */
  ghost predicate IsFirstDifference(a: string, b: string, k: int) {
    && 0 <= k <= |a| && k <= |b|
    && a[..k] == b[..k]
    && (k == |a| || k == |b| || a[k] != b[k])
  }

  /**
   The value compareTo returns: the difference of the characters at the
   first index where the strings differ, or else the difference of their
   lengths.
   */
  lemma {:induction false} CompareStringsValue(a: string, b: string)
    ensures exists k ::
      && IsFirstDifference(a, b, k)
      && CompareStrings(a, b) == (if k < |a| && k < |b| then a[k] as int - b[k] as int else |a| - |b|)
  {
    if a == [] || b == [] || a[0] != b[0] {
      assert IsFirstDifference(a, b, 0);
    } else {
      CompareStringsValue(a[1..], b[1..]);
      var k :| IsFirstDifference(a[1..], b[1..], k) &&
        CompareStrings(a[1..], b[1..]) ==
          if k < |a[1..]| && k < |b[1..]| then a[1..][k] as int - b[1..][k] as int
          else |a[1..]| - |b[1..]|;
      assert a[..k + 1] == [a[0]] + a[1..][..k];
      assert b[..k + 1] == [b[0]] + b[1..][..k];
      assert IsFirstDifference(a, b, k + 1);
    }
  }

  /** Dropping an equal first character keeps one string a proper prefix of the other. */
  lemma ProperPrefixTail(a: string, b: string)
    requires a != [] && b != [] && a[0] == b[0]
    ensures (|a| < |b| && a == b[..|a|]) <==> (|a| - 1 < |b| - 1 && a[1..] == b[1..][..|a| - 1])
  {
    if |a| < |b| {
      assert b[..|a|] == [b[0]] + b[1..][..|a| - 1];
      assert a == [a[0]] + a[1..];
    }
  }

  /** Dropping an equal first character keeps the first difference in favour of a. */
  lemma SmallerAtDifferenceTail(a: string, b: string)
    requires a != [] && b != [] && a[0] == b[0]
    ensures (exists i :: 0 <= i < |a| && i < |b| && a[..i] == b[..i] && a[i] < b[i]) <==>
            (exists j :: 0 <= j < |a| - 1 && j < |b| - 1 && a[1..][..j] == b[1..][..j] && a[1..][j] < b[1..][j])
  {
    var a', b' := a[1..], b[1..];
    if exists i :: 0 <= i < |a| && i < |b| && a[..i] == b[..i] && a[i] < b[i] {
      var i :| 0 <= i < |a| && i < |b| && a[..i] == b[..i] && a[i] < b[i];
      assert i != 0;
      assert a'[..i - 1] == a[..i][1..] && b'[..i - 1] == b[..i][1..];
      assert a'[i - 1] < b'[i - 1];
    }
    if exists j :: 0 <= j < |a'| && j < |b'| && a'[..j] == b'[..j] && a'[j] < b'[j] {
      var j :| 0 <= j < |a'| && j < |b'| && a'[..j] == b'[..j] && a'[j] < b'[j];
      assert a[..j + 1] == [a[0]] + a'[..j] && b[..j + 1] == [b[0]] + b'[..j];
      assert a[j + 1] < b[j + 1];
    }
  }

  /** Two strings that agree on a non-empty prefix have the same first character. */
  lemma EqualPrefixesShareHead(a: string, b: string)
    ensures forall i :: 0 < i <= |a| && i <= |b| && a[..i] == b[..i] ==> a[0] == b[0]
  {
    forall i | 0 < i <= |a| && i <= |b| && a[..i] == b[..i]
      ensures a[0] == b[0]
    {
      assert a[..i][0] == a[0] && b[..i][0] == b[0];
    }
  }

  /** The order compareTo induces is exactly the lexicographic order. */
  lemma {:induction false} StrLessIsLex(a: string, b: string)
    ensures StrLess(a, b) <==> LexLess(a, b)
  {
    EqualPrefixesShareHead(a, b);
    assert a[..|a|] == a && a[..0] == b[..0];
    if a != [] && b != [] && a[0] == b[0] {
      assert a == [a[0]] + a[1..] && b == [b[0]] + b[1..];
      StrLessIsLex(a[1..], b[1..]);
      ProperPrefixTail(a, b);
      SmallerAtDifferenceTail(a, b);
    }
  }

  /** Of two distinct strings exactly one sorts before the other. */
  lemma StrLessTotal(a: string, b: string)
    ensures a == b ==> !StrLess(a, b)
    ensures a != b ==> (StrLess(a, b) <==> !StrLess(b, a))
  {
    CompareStringsAntisymmetric(a, b);
  }

  // ---------------------------------------------------------------------
  // String.hashCode
  // ---------------------------------------------------------------------

  /** The exact value of s[0]*31^(n-1) + ... + s[n-1], before any wrap-around. */
  function HashPolynomial(s: string): int {
    if s == [] then 0 else 31 * HashPolynomial(s[..|s| - 1]) + s[|s| - 1] as int
  }

  /** String.hashCode: the loop h = 31 * h + c, carried out in int arithmetic. */
  function StringHash(s: string): (h: int)
    ensures INT_MIN <= h <= INT_MAX
  {
    if s == [] then 0 else Wrap32(31 * StringHash(s[..|s| - 1]) + s[|s| - 1] as int)
  }

  /** One step h = 31 * h + c maps congruent values to the same int. */
  lemma {:induction false} HashStepCongruent(x: int, w: int, c: int)
    requires (x - w) % INT_MODULUS == 0
    ensures Wrap32(31 * x + c) == Wrap32(31 * w + c)
  {
    var t := (x - w) / INT_MODULUS;
    assert x - w == INT_MODULUS * t;
    assert (31 * x + c) - (31 * w + c) == INT_MODULUS * (31 * t);
    Wrap32Congruent(31 * x + c, 31 * w + c);
  }

  /** Wrapping at every step gives the documented polynomial, wrapped once. */
  lemma {:induction false} StringHashIsWrappedPolynomial(s: string)
    ensures StringHash(s) == Wrap32(HashPolynomial(s))
  {
    if s != [] {
      var p := s[..|s| - 1];
      StringHashIsWrappedPolynomial(p);
      HashStepCongruent(HashPolynomial(p), StringHash(p), s[|s| - 1] as int);
    }
  }
}
