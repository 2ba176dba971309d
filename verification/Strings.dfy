/**
 Text as the Rust code sees it. A `char` stands for one UTF-8 code unit, so `|s|` is `str::len`,
 the order below is the byte order of `str::cmp`, and substring search is exact.
 */
module Strings {

  /** `p` occurs in `s` starting at `i`. */
  predicate OccursAt(s: string, p: string, i: nat) {
    i <= |s| && p <= s[i..]
  }

  predicate Contains(s: string, p: string) {
    exists i: nat :: i <= |s| && OccursAt(s, p, i)
  }

  /** One of the two is a prefix of the other: laid over each other they agree. */
  predicate Comparable(a: string, b: string) {
    a <= b || b <= a
  }

  /** `str::replace` for a non-empty pattern: leftmost, non-overlapping, never rescanned. */
  function Replace(s: string, p: string, r: string): string
    requires p != ""
  {
    if s == "" then ""
    else if p <= s then r + Replace(s[|p|..], p, r)
    else [s[0]] + Replace(s[1..], p, r)
  }

  /** `str::cmp` as a non-strict order. */
  predicate LexLeq(a: string, b: string) {
    a == "" || (b != "" && (a[0] < b[0] || (a[0] == b[0] && LexLeq(a[1..], b[1..]))))
  }

  lemma {:induction false} LexTotal(a: string, b: string)
    ensures LexLeq(a, b) || LexLeq(b, a)
  {
    if a != "" && b != "" { LexTotal(a[1..], b[1..]); }
  }

  lemma {:induction false} LexAntisymmetric(a: string, b: string)
    requires LexLeq(a, b) && LexLeq(b, a)
    ensures a == b
  {
    if a != "" {
      LexAntisymmetric(a[1..], b[1..]);
      assert a == [a[0]] + a[1..] && b == [b[0]] + b[1..];
    }
  }

  lemma {:induction false} LexTransitive(a: string, b: string, c: string)
    requires LexLeq(a, b) && LexLeq(b, c)
    ensures LexLeq(a, c)
  {
    if a != "" && a[0] == b[0] == c[0] { LexTransitive(a[1..], b[1..], c[1..]); }
  }

  /** The order is decided by the first code unit in which two texts differ. */
  lemma {:induction false} LexFirstDifference(x: string, a: string, b: string)
    requires a != "" && b != "" && a[0] < b[0]
    ensures LexLeq(x, x + a) && LexLeq(x + a, x + b) && !LexLeq(x + b, x + a)
  {
    if x == "" {
      assert x + a == a && x + b == b;
    } else {
      assert (x + a)[1..] == x[1..] + a && (x + b)[1..] == x[1..] + b;
      LexFirstDifference(x[1..], a, b);
    }
  }

  lemma PrefixOfSplit(p: string, a: string, b: string, k: nat)
    requires k <= |a| && OccursAt(a + b, p, k)
    ensures Comparable(a[k..], p)
  {
    assert (a + b)[k..] == a[k..] + b;
    if |p| <= |a| - k {
      assert p == (a[k..] + b)[..|p|] == a[k..][..|p|];
    } else {
      assert a[k..] == p[..|a| - k];
    }
  }

  /** Replacement walks over a leading part in which no occurrence of the pattern starts. */
  lemma {:induction false} ReplaceSkips(a: string, b: string, p: string, r: string)
    requires p != ""
    requires forall k: nat :: k < |a| ==> !Comparable(a[k..], p)
    ensures Replace(a + b, p, r) == a + Replace(b, p, r)
  {
    if a == "" {
      assert a + b == b;
    } else {
      if p <= a + b {
        assert (a + b)[0..] == a + b && a[0..] == a;
        PrefixOfSplit(p, a, b, 0);
      }
      assert (a + b)[1..] == a[1..] + b;
      forall k: nat | k < |a[1..]|
        ensures !Comparable(a[1..][k..], p)
      {
        assert a[1..][k..] == a[k + 1..];
      }
      ReplaceSkips(a[1..], b, p, r);
      assert [a[0]] + a[1..] == a;
    }
  }

  lemma {:induction false} ReplaceAbsent(s: string, p: string, r: string)
    requires p != "" && !Contains(s, p)
    ensures Replace(s, p, r) == s
  {
    if s != "" {
      assert s[0..] == s && !OccursAt(s, p, 0);
      forall i: nat
        ensures !OccursAt(s[1..], p, i)
      {
        if i <= |s| - 1 {
          assert s[1..][i..] == s[i + 1..];
          assert !OccursAt(s, p, i + 1);
        }
      }
      ReplaceAbsent(s[1..], p, r);
    }
  }

  /** With a longer replacement the text grows exactly when the pattern occurs. */
  lemma {:induction false} ReplaceGrows(s: string, p: string, r: string)
    requires p != "" && |p| < |r|
    ensures |Replace(s, p, r)| >= |s|
    ensures Contains(s, p) ==> |Replace(s, p, r)| > |s|
  {
    if s != "" {
      assert s[0..] == s;
      if p <= s {
        ReplaceGrows(s[|p|..], p, r);
      } else {
        ReplaceGrows(s[1..], p, r);
        if i: nat :| i <= |s| && OccursAt(s, p, i) {
          assert i > 0;
          assert s[1..][i - 1..] == s[i..];
          assert OccursAt(s[1..], p, i - 1);
        }
      }
    }
  }

  lemma PrefixBeforeSeparator(a: string, c: char, b: string, p: string)
    requires c !in p
    ensures p <= a + [c] + b <==> p <= a
  {
    var s := a + [c] + b;
    assert s[|a|] == c && forall i :: 0 <= i < |p| ==> p[i] != c;
    assert |p| <= |a| ==> s[..|p|] == a[..|p|];
  }

  /** A character that is not part of the pattern cuts the text into independent halves. */
  lemma {:induction false} ReplaceAcrossSeparator(a: string, c: char, b: string, p: string, r: string)
    requires p != "" && c !in p
    ensures Replace(a + [c] + b, p, r) == Replace(a, p, r) + [c] + Replace(b, p, r)
  {
    var s := a + [c] + b;
    PrefixBeforeSeparator(a, c, b, p);
    if a == "" {
      assert s[1..] == b && s[0] == c;
    } else if p <= a {
      assert s[|p|..] == a[|p|..] + [c] + b;
      ReplaceAcrossSeparator(a[|p|..], c, b, p, r);
    } else {
      assert s[1..] == a[1..] + [c] + b && s[0] == a[0];
      ReplaceAcrossSeparator(a[1..], c, b, p, r);
    }
  }

  /** Index just after the last occurrence of `c`, 0 if there is none. */
  function AfterLast(s: string, c: char): (i: nat)
    ensures i <= |s| && forall k :: i <= k < |s| ==> s[k] != c
    ensures i > 0 ==> s[i - 1] == c
    ensures c in s ==> i > 0
  {
    if s == "" then 0
    else if s[|s| - 1] == c then |s|
    else AfterLast(s[..|s| - 1], c)
  }

  function LowerChar(c: char): (r: char)
    ensures 'A' <= c <= 'Z' ==> 'a' <= r <= 'z' && r as int - c as int == 32
    ensures !('A' <= c <= 'Z') ==> r == c
  {
    if 'A' <= c <= 'Z' then c - 'A' + 'a' else c
  }

  /** `to_ascii_lowercase`. */
  function Lower(s: string): (r: string)
    ensures |r| == |s| && forall i :: 0 <= i < |s| ==> r[i] == LowerChar(s[i])
  {
    seq(|s|, i requires 0 <= i < |s| => LowerChar(s[i]))
  }

  lemma LowerTwice(x: string)
    ensures Lower(Lower(x)) == Lower(x)
  {
  }
}
