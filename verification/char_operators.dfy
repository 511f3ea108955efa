/**
 * CHAR(n) comparison semantics as fixed by the operator tests: a CHAR(n)
 * value is its text right-padded with spaces to n characters, and every
 * comparison operator compares the padded strings code point by code point,
 * whether or not the declared lengths agree.
 */
module CharOperators {

  /** `cast(text as char(length))`; truncation is not modelled, so the text must fit. */
  datatype CharLiteral = Cast(text: string, length: nat)

  type CharValue = c: CharLiteral | |c.text| <= c.length witness Cast("", 0)

  /** `k` space characters. */
  function Spaces(k: nat): (s: string)
    ensures |s| == k
    ensures forall i | 0 <= i < k :: s[i] == ' '
  {
    if k == 0 then "" else Spaces(k - 1) + " "
  }

  /** The padded string a CHAR(n) value stands for. */
  function Padded(c: CharValue): (p: string)
    ensures |p| == c.length
    ensures p[..|c.text|] == c.text
    ensures forall i | |c.text| <= i < |p| :: p[i] == ' '
  {
    c.text + Spaces(c.length - |c.text|)
  }

  // ---------------------------------------------------------------------
  // Lexicographic order on strings by code point
  // ---------------------------------------------------------------------

  /**
   * Three-way comparison of the suffixes from position i, in the style of
   * `compareTo`: -1, 0 or 1.
   */
  function CompareFrom(a: string, b: string, i: nat): (r: int)
    requires i <= |a| && i <= |b|
    ensures -1 <= r <= 1
    decreases |a| - i
  {
    if i == |a| && i == |b| then 0
    else if i == |a| then -1
    else if i == |b| then 1
    else if a[i] < b[i] then -1
    else if b[i] < a[i] then 1
    else CompareFrom(a, b, i + 1)
  }

  /**
   * Three-way comparison of two strings by code point: negative exactly when
   * `a` sorts first in the lexicographic order, zero exactly when the
   * strings are equal.
   */
  function Compare(a: string, b: string): (r: int)
    ensures -1 <= r <= 1
    ensures r < 0 <==> LexLess(a, b)
    ensures r == 0 <==> a == b
  {
    assert a[..0] == b[..0];
    assert a[0..] == a && b[0..] == b;
    CompareFromMatchesLexLess(a, b, 0);
    CompareFromZeroIsEquality(a, b, 0);
    CompareFrom(a, b, 0)
  }

  /**
   * Reference definition of "a sorts before b": a and b agree on the first k
   * code points, and then either a ends while b goes on, or a's next code
   * point is the smaller one.
   */
  ghost predicate DiffersAt(a: string, b: string, k: nat)
  {
    && k <= |a| && k <= |b|
    && a[..k] == b[..k]
    && if k == |a| then k < |b| else k < |b| && a[k] < b[k]
  }

  ghost predicate LexLess(a: string, b: string)
  {
    exists k: nat :: DiffersAt(a, b, k)
  }

  /** A proper prefix sorts first. */
  lemma ProperPrefixIsLess(a: string, b: string)
    requires |a| < |b| && b[..|a|] == a
    ensures LexLess(a, b)
  {
    assert a[..|a|] == b[..|a|];
    assert DiffersAt(a, b, |a|);
  }

  /** Strings that agree on their first i code points do not differ before i. */
  lemma NoDifferenceBefore(a: string, b: string, i: nat, k: nat)
    requires i <= |a| && i <= |b| && a[..i] == b[..i] && k < i
    ensures !DiffersAt(a, b, k)
  {
    assert a[..i][k] == b[..i][k];
  }

  /** `CompareFrom` agrees with the reference order once the common prefix is known. */
  lemma {:induction false} CompareFromMatchesLexLess(a: string, b: string, i: nat)
    requires i <= |a| && i <= |b| && a[..i] == b[..i]
    ensures CompareFrom(a, b, i) < 0 <==> LexLess(a, b)
    decreases |a| - i
  {
    if i == |a| || i == |b| || b[i] < a[i] {
      if CompareFrom(a, b, i) < 0 {
        assert DiffersAt(a, b, i);
      } else {
        forall k: nat
          ensures !DiffersAt(a, b, k)
        {
          if k < i {
            NoDifferenceBefore(a, b, i, k);
          } else if i < k <= |a| && k <= |b| {
            assert a[..k][i] == a[i] && b[..k][i] == b[i];
          }
        }
      }
    } else if a[i] < b[i] {
      assert DiffersAt(a, b, i);
    } else {
      assert a[..i + 1] == a[..i] + [a[i]] && b[..i + 1] == b[..i] + [b[i]];
      CompareFromMatchesLexLess(a, b, i + 1);
    }
  }

  lemma {:induction false} CompareFromZeroIsEquality(a: string, b: string, i: nat)
    requires i <= |a| && i <= |b|
    ensures CompareFrom(a, b, i) == 0 <==> a[i..] == b[i..]
    decreases |a| - i
  {
    if i < |a| && i < |b| {
      assert a[i..] == [a[i]] + a[i + 1..] && b[i..] == [b[i]] + b[i + 1..];
      if a[i] == b[i] {
        CompareFromZeroIsEquality(a, b, i + 1);
      } else {
        assert a[i..][0] != b[i..][0];
      }
    } else if i < |a| || i < |b| {
      assert |a[i..]| != |b[i..]|;
    }
  }

  lemma {:induction false} CompareFromAntisymmetric(a: string, b: string, i: nat)
    requires i <= |a| && i <= |b|
    ensures CompareFrom(a, b, i) == -CompareFrom(b, a, i)
    decreases |a| - i
  {
    if i < |a| && i < |b| && a[i] == b[i] {
      CompareFromAntisymmetric(a, b, i + 1);
    }
  }

  lemma CompareAntisymmetric(a: string, b: string)
    ensures Compare(a, b) == -Compare(b, a)
  {
    CompareFromAntisymmetric(a, b, 0);
  }

  lemma {:induction false} CompareFromTransitive(a: string, b: string, c: string, i: nat)
    requires i <= |a| && i <= |b| && i <= |c|
    requires CompareFrom(a, b, i) < 0 && CompareFrom(b, c, i) < 0
    ensures CompareFrom(a, c, i) < 0
    decreases |a| - i
  {
    if i < |a| && i < |b| && i < |c| && a[i] == b[i] && b[i] == c[i] {
      CompareFromTransitive(a, b, c, i + 1);
    }
  }

  lemma CompareTransitive(a: string, b: string, c: string)
    requires Compare(a, b) < 0 && Compare(b, c) < 0
    ensures Compare(a, c) < 0
  {
    CompareFromTransitive(a, b, c, 0);
  }

  // ---------------------------------------------------------------------
  // The SQL operators on CHAR(n)
  // ---------------------------------------------------------------------

  /** `x = y`: the padded strings are equal, so neither sorts before the other. */
  function Equal(x: CharValue, y: CharValue): (b: bool)
    ensures b <==> !LexLess(Padded(x), Padded(y)) && !LexLess(Padded(y), Padded(x))
  {
    CompareAntisymmetric(Padded(x), Padded(y));
    Padded(x) == Padded(y)
  }

  /** `x <> y`: one padded string sorts before the other. */
  function NotEqual(x: CharValue, y: CharValue): (b: bool)
    ensures b <==> LexLess(Padded(x), Padded(y)) || LexLess(Padded(y), Padded(x))
  {
    !Equal(x, y)
  }

  /** `x < y`: the padded string of `x` sorts first. */
  function LessThan(x: CharValue, y: CharValue): (b: bool)
    ensures b <==> LexLess(Padded(x), Padded(y))
  {
    Compare(Padded(x), Padded(y)) < 0
  }

  /** `x <= y`: the padded string of `y` does not sort first. */
  function LessThanOrEqual(x: CharValue, y: CharValue): (b: bool)
    ensures b <==> !LexLess(Padded(y), Padded(x))
  {
    CompareAntisymmetric(Padded(x), Padded(y));
    Compare(Padded(x), Padded(y)) <= 0
  }

  /** `x > y`: the padded string of `y` sorts first. */
  function GreaterThan(x: CharValue, y: CharValue): (b: bool)
    ensures b <==> LexLess(Padded(y), Padded(x))
  {
    CompareAntisymmetric(Padded(x), Padded(y));
    Compare(Padded(x), Padded(y)) > 0
  }

  /** `x >= y`: the padded string of `x` does not sort first. */
  function GreaterThanOrEqual(x: CharValue, y: CharValue): (b: bool)
    ensures b <==> !LexLess(Padded(x), Padded(y))
  {
    Compare(Padded(x), Padded(y)) >= 0
  }

  /** `x BETWEEN low AND high`: `x` sorts neither before `low` nor after `high`. */
  function Between(x: CharValue, low: CharValue, high: CharValue): (b: bool)
    ensures b <==> !LexLess(Padded(x), Padded(low)) && !LexLess(Padded(high), Padded(x))
  {
    GreaterThanOrEqual(x, low) && LessThanOrEqual(x, high)
  }

  /** `x NOT BETWEEN low AND high`: `x` sorts before `low` or after `high`. */
  function NotBetween(x: CharValue, low: CharValue, high: CharValue): (b: bool)
    ensures b <==> LexLess(Padded(x), Padded(low)) || LexLess(Padded(high), Padded(x))
  {
    !Between(x, low, high)
  }

  // ---------------------------------------------------------------------
  // General laws
  // ---------------------------------------------------------------------

  /** `=` agrees with the three-way comparison and is symmetric; `<>` is `<` or `>`. */
  lemma EqualIsCompareZero(x: CharValue, y: CharValue)
    ensures Equal(x, y) <==> Compare(Padded(x), Padded(y)) == 0
    ensures NotEqual(x, y) <==> LessThan(x, y) || GreaterThan(x, y)
    ensures Equal(x, y) <==> Equal(y, x)
  {
  }

  /** Exactly one of `<`, `=`, `>` holds; `<=` and `>=` are `<` or `=` and `>` or `=`. */
  lemma Trichotomy(x: CharValue, y: CharValue)
    ensures LessThan(x, y) || Equal(x, y) || GreaterThan(x, y)
    ensures !(LessThan(x, y) && Equal(x, y))
    ensures !(LessThan(x, y) && GreaterThan(x, y))
    ensures !(Equal(x, y) && GreaterThan(x, y))
    ensures LessThanOrEqual(x, y) <==> LessThan(x, y) || Equal(x, y)
    ensures GreaterThanOrEqual(x, y) <==> GreaterThan(x, y) || Equal(x, y)
  {
  }

  /** `>` is the converse of `<`, and `>=` the converse of `<=`. */
  lemma GreaterIsConverse(x: CharValue, y: CharValue)
    ensures GreaterThan(x, y) <==> LessThan(y, x)
    ensures GreaterThanOrEqual(x, y) <==> LessThanOrEqual(y, x)
  {
    CompareAntisymmetric(Padded(x), Padded(y));
  }

  lemma LessThanTransitive(x: CharValue, y: CharValue, z: CharValue)
    requires LessThan(x, y) && LessThan(y, z)
    ensures LessThan(x, z)
  {
    CompareTransitive(Padded(x), Padded(y), Padded(z));
  }

  lemma LessThanOrEqualTransitive(x: CharValue, y: CharValue, z: CharValue)
    requires LessThanOrEqual(x, y) && LessThanOrEqual(y, z)
    ensures LessThanOrEqual(x, z)
  {
    if LessThan(x, y) && LessThan(y, z) {
      CompareTransitive(Padded(x), Padded(y), Padded(z));
    }
  }

  /** `x BETWEEN a AND b` is `a <= x AND x <= b`; `NOT BETWEEN` is its negation. */
  lemma BetweenIsRange(x: CharValue, low: CharValue, high: CharValue)
    ensures Between(x, low, high) <==> LessThanOrEqual(low, x) && LessThanOrEqual(x, high)
    ensures NotBetween(x, low, high) <==> LessThan(x, low) || GreaterThan(x, high)
  {
    GreaterIsConverse(x, low);
  }

  /** The range is empty when its bounds are out of order. */
  lemma BetweenEmptyWhenBoundsReversed(x: CharValue, low: CharValue, high: CharValue)
    requires GreaterThan(low, high)
    ensures !Between(x, low, high)
  {
    GreaterIsConverse(low, high);
    GreaterIsConverse(x, low);
    if Between(x, low, high) {
      LessThanOrEqualTransitive(low, x, high);
      Trichotomy(low, high);
      assert false;
    }
  }

  /** Values of different declared lengths are never equal, whatever their text. */
  lemma DifferentLengthsNeverEqual(x: CharValue, y: CharValue)
    requires x.length != y.length
    ensures !Equal(x, y) && NotEqual(x, y)
  {
  }

  /** Trailing spaces within the declared length are insignificant. */
  lemma TrailingSpacesInsignificant(s: string, k: nat, n: nat)
    requires |s| + k <= n
    ensures Equal(Cast(s, n), Cast(s + Spaces(k), n))
  {
    var p, q := Padded(Cast(s, n)), Padded(Cast(s + Spaces(k), n));
    forall i | 0 <= i < n
      ensures p[i] == q[i]
    {
      if i < |s| {
        assert p[i] == p[..|s|][i] && q[i] == q[..|s + Spaces(k)|][i] == (s + Spaces(k))[i];
      } else if i < |s| + k {
        assert q[i] == q[..|s + Spaces(k)|][i] == (s + Spaces(k))[i] == Spaces(k)[i - |s|];
      }
    }
  }

  /** The same text at a longer declared length sorts after the shorter one: padding makes it a longer string. */
  lemma LongerPaddingSortsAfter(s: string, n: nat, m: nat)
    requires |s| <= n < m
    ensures LessThan(Cast(s, n), Cast(s, m))
    ensures !Equal(Cast(s, n), Cast(s, m))
  {
    var p, q := Padded(Cast(s, n)), Padded(Cast(s, m));
    assert q[..n] == p by {
      forall i | 0 <= i < n
        ensures q[..n][i] == p[i]
      {
        if i < |s| {
          assert p[i] == p[..|s|][i] && q[i] == q[..|s|][i];
        }
      }
    }
    ProperPrefixIsLess(p, q);
  }

  // ---------------------------------------------------------------------
  // The rows of the operator tests
  // ---------------------------------------------------------------------

  lemma TestEqual()
    ensures !Equal(Cast("foo", 3), Cast("foo", 5))
    ensures Equal(Cast("foo", 3), Cast("foo", 3))
    ensures !Equal(Cast("foo", 3), Cast("bar", 3))
    ensures !Equal(Cast("bar", 3), Cast("foo", 3))
    ensures Equal(Cast("a", 2), Cast("a ", 2))
    ensures Equal(Cast("a ", 2), Cast("a", 2))
  {
  }

  lemma TestNotEqual()
    ensures NotEqual(Cast("foo", 3), Cast("foo", 5))
    ensures !NotEqual(Cast("foo", 3), Cast("foo", 3))
    ensures NotEqual(Cast("foo", 3), Cast("bar", 3))
    ensures NotEqual(Cast("bar", 3), Cast("foo", 3))
    ensures !NotEqual(Cast("a", 2), Cast("a ", 2))
    ensures !NotEqual(Cast("a ", 2), Cast("a", 2))
    ensures NotEqual(Cast("a", 3), Cast("a", 2))
    ensures NotEqual(Cast("", 3), Cast("", 2))
    ensures !NotEqual(Cast("", 2), Cast("", 2))
  {
  }

  lemma TestLessThan()
    ensures LessThan(Cast("bar", 5), Cast("foo", 3))
    ensures !LessThan(Cast("foo", 5), Cast("bar", 3))
    ensures LessThan(Cast("bar", 3), Cast("foo", 5))
    ensures !LessThan(Cast("foo", 3), Cast("bar", 5))
    ensures !LessThan(Cast("foo", 3), Cast("foo", 3))
    ensures LessThan(Cast("foo", 3), Cast("foo", 5))
    ensures !LessThan(Cast("foo", 5), Cast("foo", 3))
    ensures !LessThan(Cast("foo", 3), Cast("bar", 3))
    ensures LessThan(Cast("bar", 3), Cast("foo", 3))
    ensures LessThan(Cast("foobar", 6), Cast("foobaz", 6))
    ensures LessThan(Cast("foob r", 6), Cast("foobar", 6))
  {
  }

  /** The rows with a NUL character, which sorts below the padding space. */
  lemma TestLessThanNul()
    ensures LessThan(Cast("\0", 1), Cast(" ", 1))
    ensures !LessThan(Cast("\0", 1), Cast("", 0))
    ensures LessThan(Cast("abc\0", 4), Cast("abc", 4))
    ensures LessThan(Cast("\0", 1), Cast("\0 ", 2))
    ensures !LessThan(Cast("\0", 2), Cast("\0 ", 2))
    ensures !LessThan(Cast("\0 a", 3), Cast("\0", 3))
  {
  }

  lemma TestLessThanOrEqual()
    ensures LessThanOrEqual(Cast("bar", 5), Cast("foo", 3))
    ensures !LessThanOrEqual(Cast("foo", 5), Cast("bar", 3))
    ensures LessThanOrEqual(Cast("bar", 3), Cast("foo", 5))
    ensures !LessThanOrEqual(Cast("foo", 3), Cast("bar", 5))
    ensures LessThanOrEqual(Cast("foo", 3), Cast("foo", 3))
    ensures LessThanOrEqual(Cast("foo", 3), Cast("foo", 5))
    ensures !LessThanOrEqual(Cast("foo", 5), Cast("foo", 3))
    ensures !LessThanOrEqual(Cast("foo", 3), Cast("bar", 3))
    ensures LessThanOrEqual(Cast("bar", 3), Cast("foo", 3))
    ensures LessThanOrEqual(Cast("foobar", 6), Cast("foobaz", 6))
    ensures LessThanOrEqual(Cast("foob r", 6), Cast("foobar", 6))
  {
  }

  /** The rows with a NUL character, which sorts below the padding space. */
  lemma TestLessThanOrEqualNul()
    ensures LessThanOrEqual(Cast("\0", 1), Cast(" ", 1))
    ensures !LessThanOrEqual(Cast("\0", 1), Cast("", 0))
    ensures LessThanOrEqual(Cast("abc\0", 4), Cast("abc", 4))
    ensures LessThanOrEqual(Cast("\0", 1), Cast("\0 ", 2))
    ensures LessThanOrEqual(Cast("\0", 2), Cast("\0 ", 2))
    ensures !LessThanOrEqual(Cast("\0 a", 3), Cast("\0", 3))
  {
  }

  lemma TestGreaterThan()
    ensures !GreaterThan(Cast("bar", 5), Cast("foo", 3))
    ensures GreaterThan(Cast("foo", 5), Cast("bar", 3))
    ensures !GreaterThan(Cast("bar", 3), Cast("foo", 5))
    ensures GreaterThan(Cast("foo", 3), Cast("bar", 5))
    ensures !GreaterThan(Cast("foo", 3), Cast("foo", 3))
    ensures !GreaterThan(Cast("foo", 3), Cast("foo", 5))
    ensures GreaterThan(Cast("foo", 5), Cast("foo", 3))
    ensures GreaterThan(Cast("foo", 3), Cast("bar", 3))
    ensures !GreaterThan(Cast("bar", 3), Cast("foo", 3))
    ensures !GreaterThan(Cast("foobar", 6), Cast("foobaz", 6))
    ensures !GreaterThan(Cast("foob r", 6), Cast("foobar", 6))
  {
  }

  /** The rows with a NUL character, which sorts below the padding space. */
  lemma TestGreaterThanNul()
    ensures GreaterThan(Cast(" ", 1), Cast("\0", 1))
    ensures !GreaterThan(Cast("", 0), Cast("\0", 1))
    ensures GreaterThan(Cast("abc", 4), Cast("abc\0", 4))
    ensures GreaterThan(Cast("\0 ", 2), Cast("\0", 1))
    ensures !GreaterThan(Cast("\0 ", 2), Cast("\0", 2))
    ensures GreaterThan(Cast("\0 a", 3), Cast("\0", 3))
  {
  }

  lemma TestGreaterThanOrEqual()
    ensures !GreaterThanOrEqual(Cast("bar", 5), Cast("foo", 3))
    ensures GreaterThanOrEqual(Cast("foo", 5), Cast("bar", 3))
    ensures !GreaterThanOrEqual(Cast("bar", 3), Cast("foo", 5))
    ensures GreaterThanOrEqual(Cast("foo", 3), Cast("bar", 5))
    ensures GreaterThanOrEqual(Cast("foo", 3), Cast("foo", 3))
    ensures !GreaterThanOrEqual(Cast("foo", 3), Cast("foo", 5))
    ensures GreaterThanOrEqual(Cast("foo", 5), Cast("foo", 3))
    ensures GreaterThanOrEqual(Cast("foo", 3), Cast("bar", 3))
    ensures !GreaterThanOrEqual(Cast("bar", 3), Cast("foo", 3))
    ensures !GreaterThanOrEqual(Cast("foobar", 6), Cast("foobaz", 6))
    ensures !GreaterThanOrEqual(Cast("foob r", 6), Cast("foobar", 6))
  {
  }

  /** The rows with a NUL character, which sorts below the padding space. */
  lemma TestGreaterThanOrEqualNul()
    ensures GreaterThanOrEqual(Cast(" ", 1), Cast("\0", 1))
    ensures !GreaterThanOrEqual(Cast("", 0), Cast("\0", 1))
    ensures GreaterThanOrEqual(Cast("abc", 4), Cast("abc\0", 4))
    ensures GreaterThanOrEqual(Cast("\0 ", 2), Cast("\0", 1))
    ensures GreaterThanOrEqual(Cast("\0 ", 2), Cast("\0", 2))
    ensures GreaterThanOrEqual(Cast("\0 a", 3), Cast("\0", 3))
  {
  }

  lemma TestBetween()
    ensures Between(Cast("bbb", 3), Cast("aaa", 3), Cast("ccc", 3))
    ensures Between(Cast("foo", 3), Cast("foo", 3), Cast("foo", 3))
    ensures !Between(Cast("foo", 3), Cast("foo", 3), Cast("bar", 3))
    ensures !Between(Cast("foo", 3), Cast("zzz", 3), Cast("foo", 3))
    ensures NotBetween(Cast("foo", 3), Cast("zzz", 3), Cast("foo", 3))
    ensures Between(Cast("foo", 3), Cast("bar", 3), Cast("foo", 3))
    ensures !Between(Cast("foo", 3), Cast("bar", 3), Cast("bar", 3))
    ensures !Between(Cast("bar", 3), Cast("foo", 3), Cast("foo", 3))
    ensures !Between(Cast("bar", 3), Cast("foo", 3), Cast("bar", 3))
    ensures Between(Cast("bar", 3), Cast("bar", 3), Cast("foo", 3))
    ensures Between(Cast("bar", 3), Cast("bar", 3), Cast("bar", 3))
    ensures Between(Cast("\0 a", 3), Cast("\0", 3), Cast("\0a", 3))
    ensures Between(Cast("bar", 4), Cast("bar", 3), Cast("bar", 5))
    ensures !Between(Cast("bar", 4), Cast("bar", 5), Cast("bar", 7))
  {
  }
}
