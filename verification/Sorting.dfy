/** Insertion sort standing for the `sort`/`sort_by` calls of the Rust code. */
module Sorting {

  ghost predicate TotalOrder<T(!new)>(leq: (T, T) -> bool) {
    && (forall a, b :: leq(a, b) || leq(b, a))
    && (forall a, b, c :: leq(a, b) && leq(b, c) ==> leq(a, c))
  }

  ghost predicate SortedBy<T(!new)>(s: seq<T>, leq: (T, T) -> bool) {
    forall i, j :: 0 <= i < j < |s| ==> leq(s[i], s[j])
  }

  function Insert<T>(x: T, s: seq<T>, leq: (T, T) -> bool): seq<T> {
    if s == [] then [x]
    else if leq(x, s[0]) then [x] + s
    else [s[0]] + Insert(x, s[1..], leq)
  }

  function Sort<T>(s: seq<T>, leq: (T, T) -> bool): seq<T> {
    if s == [] then [] else Insert(s[0], Sort(s[1..], leq), leq)
  }

  lemma {:induction false} InsertSorted<T(!new)>(x: T, s: seq<T>, leq: (T, T) -> bool)
    requires TotalOrder(leq) && SortedBy(s, leq)
    ensures SortedBy(Insert(x, s, leq), leq)
    ensures multiset(Insert(x, s, leq)) == multiset(s) + multiset{x}
  {
    if s == [] {
    } else if leq(x, s[0]) {
    } else {
      InsertSorted(x, s[1..], leq);
      var t := Insert(x, s[1..], leq);
      assert s == [s[0]] + s[1..];
      forall j | 0 <= j < |t|
        ensures leq(s[0], t[j])
      {
        assert t[j] in multiset(t);
        if t[j] != x {
          assert t[j] in multiset(s[1..]);
          var k :| 0 <= k < |s[1..]| && s[1..][k] == t[j];
          assert leq(s[0], s[k + 1]);
        }
      }
    }
  }

  lemma {:induction false} SortSorted<T(!new)>(s: seq<T>, leq: (T, T) -> bool)
    requires TotalOrder(leq)
    ensures SortedBy(Sort(s, leq), leq)
    ensures multiset(Sort(s, leq)) == multiset(s)
    ensures |Sort(s, leq)| == |s|
  {
    if s != [] {
      SortSorted(s[1..], leq);
      InsertSorted(s[0], Sort(s[1..], leq), leq);
      assert s == [s[0]] + s[1..];
      assert |Sort(s, leq)| == |multiset(Sort(s, leq))| == |multiset(s)| == |s|;
    }
  }

  ghost predicate Antisymmetric<T(!new)>(dom: multiset<T>, leq: (T, T) -> bool) {
    forall a, b :: a in dom && b in dom && leq(a, b) && leq(b, a) ==> a == b
  }

  lemma SameHead<T(!new)>(s: seq<T>, t: seq<T>, leq: (T, T) -> bool)
    requires s != [] && t != [] && SortedBy(s, leq) && SortedBy(t, leq)
    requires multiset(s) == multiset(t) && Antisymmetric(multiset(s), leq)
    ensures s[0] == t[0]
  {
    assert s[0] in multiset(t) && t[0] in multiset(s);
    var i :| 0 <= i < |t| && t[i] == s[0];
    var j :| 0 <= j < |s| && s[j] == t[0];
    assert i == 0 || j == 0 || (leq(s[0], s[j]) && leq(t[0], t[i]));
  }

  lemma SameLength<T>(s: seq<T>, t: seq<T>)
    requires multiset(s) == multiset(t)
    ensures |s| == |t|
  {
    assert |s| == |multiset(s)| == |multiset(t)| == |t|;
  }

  lemma SameTail<T>(s: seq<T>, t: seq<T>)
    requires s != [] && t != [] && s[0] == t[0] && multiset(s) == multiset(t)
    ensures multiset(s[1..]) == multiset(t[1..])
  {
    assert s == [s[0]] + s[1..] && t == [t[0]] + t[1..];
    assert multiset(s[1..]) == multiset(s) - multiset{s[0]};
  }

  lemma TailOf<T(!new)>(s: seq<T>, leq: (T, T) -> bool)
    requires s != [] && SortedBy(s, leq) && Antisymmetric(multiset(s), leq)
    ensures SortedBy(s[1..], leq) && Antisymmetric(multiset(s[1..]), leq)
  {
    assert s == [s[0]] + s[1..];
  }

  lemma NoRepeat<T>(s: seq<T>, i: nat, j: nat)
    requires i < j < |s| && multiset(s)[s[i]] <= 1
    ensures s[i] != s[j]
  {
    assert s == s[..j] + s[j..];
    assert s[i] == s[..j][i] && s[i] in multiset(s[..j]);
    assert s[j] == s[j..][0] && s[j] in multiset(s[j..]);
  }

  /** Two sorted arrangements of the same elements are the same list. */
  lemma {:induction false} SortedUnique<T(!new)>(s: seq<T>, t: seq<T>, leq: (T, T) -> bool)
    requires SortedBy(s, leq) && SortedBy(t, leq)
    requires multiset(s) == multiset(t) && Antisymmetric(multiset(s), leq)
    ensures s == t
  {
    hide SortedBy, Antisymmetric;
    SameLength(s, t);
    if s != [] {
      SameHead(s, t, leq);
      SameTail(s, t);
      TailOf(s, leq);
      TailOf(t, leq);
      SortedUnique(s[1..], t[1..], leq);
      assert s == [s[0]] + s[1..] && t == [t[0]] + t[1..];
    }
  }
}
