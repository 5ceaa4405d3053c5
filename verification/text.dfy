/** The JavaScript string operations the source relies on. */
module Text {

  /** `s.startsWith(prefix)`. */
  predicate StartsWith(s: string, prefix: string)
  {
    |prefix| <= |s| && s[..|prefix|] == prefix
  }

  /** `haystack.includes(needle)`: tried at each position from the left. */
  predicate Contains(haystack: string, needle: string)
    decreases |haystack|
  {
    StartsWith(haystack, needle) || (|haystack| > 0 && Contains(haystack[1..], needle))
  }

  /** `Contains` holds exactly when the needle occurs at some position. */
  lemma {:induction false} ContainsIff(haystack: string, needle: string)
    ensures Contains(haystack, needle) <==> exists i :: 0 <= i <= |haystack| && StartsWith(haystack[i..], needle)
  {
    assert haystack[0..] == haystack;
    if |haystack| > 0 {
      ContainsIff(haystack[1..], needle);
      if Contains(haystack[1..], needle) {
        var i :| 0 <= i <= |haystack[1..]| && StartsWith(haystack[1..][i..], needle);
        assert haystack[1..][i..] == haystack[i + 1..];
      }
      if exists i :: 0 <= i <= |haystack| && StartsWith(haystack[i..], needle) {
        var i :| 0 <= i <= |haystack| && StartsWith(haystack[i..], needle);
        if i > 0 {
          assert haystack[1..][i - 1..] == haystack[i..];
          assert StartsWith(haystack[1..][i - 1..], needle);
        }
      }
    }
  }

  /** Every string includes the empty string. */
  lemma ContainsEmpty(haystack: string)
    ensures Contains(haystack, "")
  {
  }

  /** A string that does not start with `a` starts with no extension `b` of `a`. */
  lemma NotStartsWithLonger(s: string, a: string, b: string)
    requires !StartsWith(s, a) && StartsWith(b, a)
    ensures !StartsWith(s, b)
  {
    if |b| <= |s| {
      assert s[..|a|] == s[..|b|][..|a|];
    }
  }

  /** JavaScript's `a < b` on strings: lexicographic by character, a proper prefix first. */
  predicate LexLt(a: string, b: string)
    decreases |a|
  {
    if |a| == 0 then |b| > 0
    else if |b| == 0 then false
    else if a[0] != b[0] then a[0] < b[0]
    else LexLt(a[1..], b[1..])
  }

  /** No string is below itself. */
  lemma {:induction false} LexLtIrreflexive(a: string)
    ensures !LexLt(a, a)
  {
    if |a| > 0 {
      LexLtIrreflexive(a[1..]);
    }
  }

  /** The string order is transitive. */
  lemma {:induction false} LexLtTransitive(a: string, b: string, c: string)
    requires LexLt(a, b) && LexLt(b, c)
    ensures LexLt(a, c)
  {
    if |a| > 0 && |b| > 0 && |c| > 0 && a[0] == b[0] && b[0] == c[0] {
      LexLtTransitive(a[1..], b[1..], c[1..]);
    }
  }

  /** Two different strings are always ordered one way or the other. */
  lemma {:induction false} LexLtTotal(a: string, b: string)
    ensures a == b || LexLt(a, b) || LexLt(b, a)
  {
    if |a| > 0 && |b| > 0 && a[0] == b[0] {
      LexLtTotal(a[1..], b[1..]);
      if a[1..] == b[1..] {
        assert a == [a[0]] + a[1..] && b == [b[0]] + b[1..];
      }
    }
  }

  /** The string order is asymmetric. */
  lemma LexLtAsymmetric(a: string, b: string)
    requires LexLt(a, b)
    ensures !LexLt(b, a)
  {
    if LexLt(b, a) {
      LexLtTransitive(a, b, a);
      LexLtIrreflexive(a);
    }
  }
}
