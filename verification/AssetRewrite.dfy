/**
 Rewriting of asset references: the sequential longest-first `replace` loop of the build script,
 and the simultaneous substitution it stands for.
 */
module AssetRewrite {
  import opened Strings
  import opened Sorting

  /** Plain public path to final hashed path. */
  type Manifest = map<string, string>

  type Ref = (string, string)

  /** Longest plain path first, then by plain path. */
  predicate RefLeq(a: Ref, b: Ref) {
    |a.0| > |b.0| || (|a.0| == |b.0| && LexLeq(a.0, b.0))
  }

  lemma RefOrder()
    ensures TotalOrder(RefLeq)
  {
    forall a, b
      ensures RefLeq(a, b) || RefLeq(b, a)
    {
      LexTotal(a.0, b.0);
    }
    forall a, b, c | RefLeq(a, b) && RefLeq(b, c)
      ensures RefLeq(a, c)
    {
      if |a.0| == |b.0| == |c.0| { LexTransitive(a.0, b.0, c.0); }
    }
  }

  /** `refs` is the ordered listing of `m`: every entry once, longest plain path first. */
  ghost predicate IsListing(refs: seq<Ref>, m: Manifest) {
    multiset(refs) == multiset(m.Items) && SortedBy(refs, RefLeq)
  }

  lemma ItemsWithout(m: Manifest, k: string)
    requires k in m
    ensures (k, m[k]) in m.Items
    ensures (m - {k}).Items == m.Items - {(k, m[k])}
  {
    forall a, b
      ensures (a, b) in (m - {k}).Items <==> (a, b) in m.Items - {(k, m[k])}
    {
    }
    assert forall x: Ref :: x == (x.0, x.1);
  }

  ghost function Entries(m: Manifest): (s: seq<Ref>)
    ensures multiset(s) == multiset(m.Items)
  {
    if m == map[] then []
    else
      var k :| k in m;
      ItemsWithout(m, k);
      Entries(m - {k}) + [(k, m[k])]
  }

  ghost function Listing(m: Manifest): (refs: seq<Ref>)
    ensures IsListing(refs, m)
  {
    RefOrder();
    SortSorted(Entries(m), RefLeq);
    Sort(Entries(m), RefLeq)
  }

  lemma ListingUnique(refs: seq<Ref>, m: Manifest)
    requires IsListing(refs, m)
    ensures refs == Listing(m)
  {
    forall a, b | a in multiset(m.Items) && b in multiset(m.Items) && RefLeq(a, b) && RefLeq(b, a)
      ensures a == b
    {
      LexAntisymmetric(a.0, b.0);
    }
    SortedUnique(refs, Listing(m), RefLeq);
  }

  /** Reads the manifest entries in any order and sorts them. */
  method AssetRefsByLength(m: Manifest) returns (refs: seq<Ref>)
    ensures refs == Listing(m)
  {
    refs := [];
    var rest := m;
    while rest != map[]
      invariant multiset(refs) + multiset(rest.Items) == multiset(m.Items)
      decreases |rest|
    {
      var k :| k in rest;
      ItemsWithout(rest, k);
      refs := refs + [(k, rest[k])];
      rest := rest - {k};
    }
    RefOrder();
    SortSorted(refs, RefLeq);
    refs := Sort(refs, RefLeq);
    ListingUnique(refs, m);
  }

  ghost predicate NonEmptyKeys(refs: seq<Ref>) {
    forall i :: 0 <= i < |refs| ==> refs[i].0 != ""
  }

  /** One `replace` per entry, in listing order. */
  function ReplaceAll(s: string, refs: seq<Ref>): string
    requires NonEmptyKeys(refs)
  {
    if refs == [] then s
    else
      var last := refs[|refs| - 1];
      Replace(ReplaceAll(s, refs[..|refs| - 1]), last.0, last.1)
  }

  lemma ReplaceAllStep(s: string, refs: seq<Ref>, r: Ref)
    requires NonEmptyKeys(refs) && r.0 != ""
    ensures NonEmptyKeys(refs + [r]) && ReplaceAll(s, refs + [r]) == Replace(ReplaceAll(s, refs), r.0, r.1)
  {
    assert (refs + [r])[..|refs + [r]| - 1] == refs;
  }

  /** What the rewriting loop computes from a manifest. */
  ghost function Rewrite(s: string, m: Manifest): string
    requires "" !in m
  {
    ListingMembers(m);
    ReplaceAll(s, Listing(m))
  }

  lemma ListingMembers(m: Manifest)
    ensures forall i :: 0 <= i < |Listing(m)| ==> Listing(m)[i] in m.Items
    ensures forall k :: k in m ==> (k, m[k]) in Listing(m)
    ensures "" !in m ==> NonEmptyKeys(Listing(m))
  {
    var refs := Listing(m);
    forall i | 0 <= i < |refs|
      ensures refs[i] in m.Items
    {
      assert refs[i] in multiset(refs);
    }
    forall k | k in m
      ensures (k, m[k]) in refs
    {
      assert (k, m[k]) in multiset(m.Items);
    }
  }

  method ReplaceHashedAssetsRefsInContent(content: string, m: Manifest) returns (newContent: string)
    requires "" !in m
    ensures newContent == Rewrite(content, m)
  {
    newContent := content;
    var refs := AssetRefsByLength(m);
    ListingMembers(m);
    hide Listing, IsListing, Replace;
    for i := 0 to |refs|
      invariant newContent == ReplaceAll(content, refs[..i])
    {
      ReplaceAllStep(content, refs[..i], refs[i]);
      assert refs[..i + 1] == refs[..i] + [refs[i]];
      newContent := Replace(newContent, refs[i].0, refs[i].1);
    }
    assert refs[..|refs|] == refs;
  }

  // ---- The simultaneous substitution --------------------------------------------------------

  /** Length of the longest key of `m` among the prefixes of `s` of length at most `n`; 0 if none. */
  function LongestKey(s: string, m: Manifest, n: nat): (r: nat)
    requires n <= |s|
    ensures r <= n && (r > 0 ==> s[..r] in m)
    ensures forall j :: r < j <= n ==> s[..j] !in m
  {
    if n == 0 || s[..n] in m then n else LongestKey(s, m, n - 1)
  }

  /** Scans once: the longest key at the current position is swapped for its own hashed path. */
  function Substitute(s: string, m: Manifest): string {
    if s == "" then ""
    else
      var n := LongestKey(s, m, |s|);
      if n > 0 then m[s[..n]] + Substitute(s[n..], m)
      else [s[0]] + Substitute(s[1..], m)
  }

  /**
   A reference `q` with hashed path `h` does not interfere with a plain path `p` replaced after it:
   `q` cannot begin strictly inside an occurrence of `p`, and no occurrence of `p` can lie in `h`,
   run out of `h`, or run into `h`.
   */
  ghost predicate SafePair(q: string, h: string, p: string) {
    && (forall k: nat :: 0 < k < |p| ==> !(p[k..] <= q))
    && (forall k: nat :: k < |h| ==> !Comparable(h[k..], p))
    && (forall k: nat :: 0 < k < |p| ==> !Comparable(p[k..], h))
  }

  /** `p` is listed after `q`: its `replace` runs later. */
  predicate Later(q: string, p: string) {
    q != p && (|p| < |q| || (|p| == |q| && LexLeq(q, p)))
  }

  ghost predicate Clean(m: Manifest) {
    forall q, p :: q in m && p in m && Later(q, p) ==> SafePair(q, m[q], p)
  }

  ghost predicate SafeAgainst(m: Manifest, p: string) {
    forall q :: q in m ==> q != p && |p| <= |q| && SafePair(q, m[q], p)
  }

  lemma RunsInto(x: string, h: string, rest: string)
    requires !Comparable(x, h)
    ensures !(x <= h + rest)
  {
    var n := if |x| < |h| then |x| else |h|;
    assert (h + rest)[..n] == h[..n];
    assert x[..n] == h[..n] ==> Comparable(x, h);
  }

  lemma KeyCutsTail(s: string, m: Manifest, p: string, k: nat)
    requires 0 < k < |p| && SafeAgainst(m, p) && s != "" && !NoKeyAt(s, m)
    ensures !(p[k..] <= Substitute(s, m))
  {
    var n := LongestKey(s, m, |s|);
    assert SafePair(s[..n], m[s[..n]], p);
    RunsInto(p[k..], m[s[..n]], Substitute(s[n..], m));
  }

  /** A tail of `p` that appears in substituted text was already there before. */
  lemma {:induction false} TailSurvives(s: string, m: Manifest, p: string, k: nat)
    requires 0 < k <= |p| && SafeAgainst(m, p)
    ensures p[k..] <= Substitute(s, m) ==> p[k..] <= s
    decreases |p| - k
  {
    hide SafeAgainst, LongestKey;
    if k < |p| && s != "" {
      if NoKeyAt(s, m) {
        TailSurvives(s[1..], m, p, k + 1);
        ConsPrefix(p[k], p[k + 1..], s[0], Substitute(s[1..], m));
        ConsPrefix(p[k], p[k + 1..], s[0], s[1..]);
        assert p[k..] == [p[k]] + p[k + 1..] && s == [s[0]] + s[1..];
      } else {
        KeyCutsTail(s, m, p, k);
      }
    }
  }

  lemma ConsPrefix(a: char, x: string, b: char, y: string)
    ensures [a] + x <= [b] + y <==> a == b && x <= y
  {
    var s, t := [a] + x, [b] + y;
    assert s[1..] == x && t[1..] == y;
    if s <= t {
      assert s == t[..|s|];
      assert a == s[0] == t[0] == b;
      assert x == s[1..] == y[..|x|];
    }
  }

  lemma NoKeyInside(s: string, m: Manifest, p: string, k: nat)
    requires 0 < k < |p| && SafeAgainst(m, p) && p[k..] <= s
    ensures NoKeyAt(s, m)
  {
    forall q | q in m
      ensures |p| <= |q| && !(p[k..] <= q)
    {
      assert SafePair(q, m[q], p);
    }
    forall j | 0 < j <= |s|
      ensures s[..j] !in m
    {
      assert |p| <= j ==> p[k..] == s[..j][..|p| - k];
    }
  }

  ghost predicate NoKeyAt(s: string, m: Manifest) {
    LongestKey(s, m, |s|) == 0
  }

  lemma CopyStep(c: char, y: string, t: string, m: Manifest)
    requires NoKeyAt([c] + y + t, m) && Substitute(y + t, m) == y + Substitute(t, m)
    ensures Substitute([c] + y + t, m) == [c] + y + Substitute(t, m)
  {
    hide LongestKey;
    var s := [c] + y + t;
    assert s[0] == c && s[1..] == y + t;
    assert Substitute(s, m) == [c] + Substitute(y + t, m);
    assert [c] + (y + Substitute(t, m)) == [c] + y + Substitute(t, m);
  }

  /** Text at which no key starts is copied character by character. */
  lemma {:induction false} CopyUnkeyed(x: string, t: string, m: Manifest)
    requires forall k: nat :: k < |x| ==> NoKeyAt(x[k..] + t, m)
    ensures Substitute(x + t, m) == x + Substitute(t, m)
  {
    if x == "" {
      assert x + t == t;
    } else {
      var y := x[1..];
      forall k: nat | k < |y|
        ensures NoKeyAt(y[k..] + t, m)
      {
        assert y[k..] == x[k + 1..];
      }
      CopyUnkeyed(y, t, m);
      assert x[0..] == x == [x[0]] + y;
      CopyStep(x[0], y, t, m);
    }
  }

  /** An occurrence of `p` that no key pre-empts is copied. */
  lemma OccurrenceCopied(p: string, t: string, m: Manifest)
    requires SafeAgainst(m, p) && NoKeyAt(p + t, m)
    ensures Substitute(p + t, m) == p + Substitute(t, m)
  {
    forall k: nat | k < |p|
      ensures NoKeyAt(p[k..] + t, m)
    {
      if k == 0 {
        assert p[0..] == p;
      } else {
        NoKeyInside(p[k..] + t, m, p, k);
      }
    }
    CopyUnkeyed(p, t, m);
  }

  /** A shorter key never takes precedence over an earlier one. */
  lemma LongestKeyExtends(s: string, m: Manifest, p: string, h: string)
    requires p != "" && SafeAgainst(m, p)
    ensures LongestKey(s, m[p := h], |s|) ==
            var n := LongestKey(s, m, |s|); if n > 0 then n else if p <= s then |p| else 0
  {
    var m' := m[p := h];
    var n, n' := LongestKey(s, m, |s|), LongestKey(s, m', |s|);
    assert n > 0 ==> s[..n] in m' && n >= |p|;
    if p <= s { assert s[..|p|] == p; }
    assert n' > 0 ==> s[..n'] == p || s[..n'] in m;
  }

  lemma NoNewOccurrence(s: string, m: Manifest, p: string)
    requires p != "" && SafeAgainst(m, p) && s != "" && !(p <= s)
    ensures !(p <= [s[0]] + Substitute(s[1..], m))
  {
    TailSurvives(s[1..], m, p, 1);
    ConsPrefix(p[0], p[1..], s[0], Substitute(s[1..], m));
    ConsPrefix(p[0], p[1..], s[0], s[1..]);
    assert p == [p[0]] + p[1..] && s == [s[0]] + s[1..];
  }

  lemma ReplaceCons(c: char, t: string, p: string, h: string)
    requires p != "" && !(p <= [c] + t)
    ensures Replace([c] + t, p, h) == [c] + Replace(t, p, h)
  {
    assert ([c] + t)[1..] == t;
  }

  lemma ReplaceHead(t: string, p: string, h: string)
    requires p != ""
    ensures Replace(p + t, p, h) == h + Replace(t, p, h)
  {
    assert (p + t)[|p|..] == t;
  }

  /** One more (shorter) key: replacing it afterwards equals having it in the substitution. */
  lemma {:induction false} ReplaceExtends(s: string, m: Manifest, p: string, h: string)
    requires p != "" && SafeAgainst(m, p)
    ensures Replace(Substitute(s, m), p, h) == Substitute(s, m[p := h])
  {
    if s != "" {
      LongestKeyExtends(s, m, p, h);
      var n := LongestKey(s, m, |s|);
      if n > 0 {
        assert SafePair(s[..n], m[s[..n]], p);
        ReplaceSkips(m[s[..n]], Substitute(s[n..], m), p, h);
        ReplaceExtends(s[n..], m, p, h);
      } else if p <= s {
        assert s == p + s[|p|..];
        OccurrenceCopied(p, s[|p|..], m);
        ReplaceHead(Substitute(s[|p|..], m), p, h);
        ReplaceExtends(s[|p|..], m, p, h);
        assert s[..|p|] == p;
      } else {
        NoNewOccurrence(s, m, p);
        ReplaceCons(s[0], Substitute(s[1..], m), p, h);
        ReplaceExtends(s[1..], m, p, h);
      }
    }
  }

  ghost function AsMap(refs: seq<Ref>): Manifest {
    if refs == [] then map[]
    else AsMap(refs[..|refs| - 1])[refs[|refs| - 1].0 := refs[|refs| - 1].1]
  }

  ghost predicate DistinctKeys(refs: seq<Ref>) {
    forall i, j :: 0 <= i < j < |refs| ==> refs[i].0 != refs[j].0
  }

  lemma {:induction false} AsMapEntries(refs: seq<Ref>)
    requires DistinctKeys(refs)
    ensures forall i :: 0 <= i < |refs| ==> refs[i].0 in AsMap(refs) && AsMap(refs)[refs[i].0] == refs[i].1
    ensures forall k :: k in AsMap(refs) ==> (k, AsMap(refs)[k]) in refs
  {
    if refs != [] {
      AsMapEntries(refs[..|refs| - 1]);
      assert refs == refs[..|refs| - 1] + [refs[|refs| - 1]];
    }
  }

  lemma ListingDistinct(m: Manifest)
    ensures DistinctKeys(Listing(m))
  {
    var refs := Listing(m);
    ListingMembers(m);
    forall i, j | 0 <= i < j < |refs|
      ensures refs[i].0 != refs[j].0
    {
      assert multiset(refs)[refs[i]] == multiset(m.Items)[refs[i]] <= 1;
      NoRepeat(refs, i, j);
      assert refs[i] in m.Items && refs[j] in m.Items;
    }
  }

  lemma AsMapOfListing(m: Manifest)
    ensures AsMap(Listing(m)) == m
  {
    hide AsMap, Listing, IsListing;
    var refs, m' := Listing(m), AsMap(Listing(m));
    ListingDistinct(m);
    ListingMembers(m);
    AsMapEntries(refs);
    forall k | k in m
      ensures k in m' && m'[k] == m[k]
    {
      var i :| 0 <= i < |refs| && refs[i] == (k, m[k]);
    }
    forall k | k in m'
      ensures k in m
    {
      var i :| 0 <= i < |refs| && refs[i] == (k, m'[k]);
    }
  }

  /** Every entry is safe for the ones replaced after it. */
  ghost predicate PairwiseSafe(refs: seq<Ref>) {
    && NonEmptyKeys(refs) && DistinctKeys(refs)
    && forall i, j :: 0 <= i < j < |refs| ==>
         |refs[j].0| <= |refs[i].0| && SafePair(refs[i].0, refs[i].1, refs[j].0)
  }

  lemma {:induction false} SubstituteNothing(s: string)
    ensures Substitute(s, map[]) == s
  {
    if s != "" { SubstituteNothing(s[1..]); }
  }

  lemma SafeInit(refs: seq<Ref>)
    requires PairwiseSafe(refs) && refs != []
    ensures PairwiseSafe(refs[..|refs| - 1]) && SafeAgainst(AsMap(refs[..|refs| - 1]), refs[|refs| - 1].0)
  {
    hide SafePair, AsMap;
    var init, last := refs[..|refs| - 1], refs[|refs| - 1];
    AsMapEntries(init);
    forall q | q in AsMap(init)
      ensures q != last.0 && |last.0| <= |q| && SafePair(q, AsMap(init)[q], last.0)
    {
      var i :| 0 <= i < |init| && init[i] == (q, AsMap(init)[q]);
      assert refs[i] == init[i];
    }
  }

  lemma {:induction false} ListSequentialIsSimultaneous(s: string, refs: seq<Ref>)
    requires PairwiseSafe(refs)
    ensures ReplaceAll(s, refs) == Substitute(s, AsMap(refs))
  {
    hide SafePair, Substitute, Replace, SafeAgainst, DistinctKeys;
    if refs == [] {
      SubstituteNothing(s);
    } else {
      var init, last := refs[..|refs| - 1], refs[|refs| - 1];
      SafeInit(refs);
      ListSequentialIsSimultaneous(s, init);
      ReplaceExtends(s, AsMap(init), last.0, last.1);
    }
  }

  lemma CleanListing(m: Manifest)
    requires "" !in m && Clean(m)
    ensures PairwiseSafe(Listing(m))
  {
    hide SafePair, LexLeq;
    var refs := Listing(m);
    ListingMembers(m);
    ListingDistinct(m);
    forall i, j | 0 <= i < j < |refs|
      ensures |refs[j].0| <= |refs[i].0| && SafePair(refs[i].0, refs[i].1, refs[j].0)
    {
      assert RefLeq(refs[i], refs[j]) && refs[i].0 != refs[j].0;
      assert Later(refs[i].0, refs[j].0);
      assert refs[i] in m.Items && refs[j] in m.Items;
    }
  }

  /**
   For every text, the loop of `replace` calls is one simultaneous substitution of every
   reference by its own hashed path.
   */
  lemma {:induction false} SequentialIsSimultaneous(s: string, m: Manifest)
    requires "" !in m && Clean(m)
    ensures Rewrite(s, m) == Substitute(s, m)
  {
    hide PairwiseSafe, Clean, Substitute, ReplaceAll, AsMap, IsListing;
    CleanListing(m);
    AsMapOfListing(m);
    ListingMembers(m);
    ListSequentialIsSimultaneous(s, Listing(m));
  }

  /** Keys that do not occur in the text contribute nothing. */
  lemma {:induction false} SubstituteIgnoresAbsent(s: string, m: Manifest, m': Manifest)
    requires m'.Keys <= m.Keys && forall k :: k in m' ==> m'[k] == m[k]
    requires forall k :: k in m && k !in m' ==> !Contains(s, k)
    ensures Substitute(s, m) == Substitute(s, m')
  {
    if s != "" {
      var n := LongestKey(s, m, |s|);
      assert s[0..] == s;
      forall j | 0 < j <= |s|
        ensures s[..j] in m <==> s[..j] in m'
      {
        if s[..j] in m && s[..j] !in m' { assert OccursAt(s, s[..j], 0); }
      }
      assert LongestKey(s, m', |s|) == n;
      var step := if n > 0 then n else 1;
      forall k | k in m && k !in m'
        ensures !Contains(s[step..], k)
      {
        if i: nat :| OccursAt(s[step..], k, i) {
          assert s[step..][i..] == s[step + i..];
          assert OccursAt(s, k, step + i);
        }
      }
      SubstituteIgnoresAbsent(s[step..], m, m');
    }
  }

  // ---- When a reference becomes its own hashed path ----------------------------------------

  lemma {:induction false} ReplaceAllConcat(s: string, a: seq<Ref>, b: seq<Ref>)
    requires NonEmptyKeys(a) && NonEmptyKeys(b)
    ensures ReplaceAll(s, a + b) == ReplaceAll(ReplaceAll(s, a), b)
  {
    if b == [] {
      assert a + b == a;
    } else {
      assert (a + b)[..|a + b| - 1] == a + b[..|b| - 1];
      ReplaceAllConcat(s, a, b[..|b| - 1]);
    }
  }

  ghost predicate Growing(refs: seq<Ref>) {
    forall i :: 0 <= i < |refs| ==> |refs[i].0| < |refs[i].1|
  }

  ghost predicate NoneOccurs(s: string, refs: seq<Ref>) {
    forall i :: 0 <= i < |refs| ==> !Contains(s, refs[i].0)
  }

  lemma {:induction false} UnchangedIffNoneOccurs(s: string, refs: seq<Ref>)
    requires NonEmptyKeys(refs) && Growing(refs)
    ensures |ReplaceAll(s, refs)| >= |s|
    ensures ReplaceAll(s, refs) == s <==> NoneOccurs(s, refs)
    ensures |ReplaceAll(s, refs)| == |s| ==> ReplaceAll(s, refs) == s
  {
    if refs != [] {
      var init, last := refs[..|refs| - 1], refs[|refs| - 1];
      UnchangedIffNoneOccurs(s, init);
      var t := ReplaceAll(s, init);
      ReplaceGrows(t, last.0, last.1);
      if t == s {
        assert forall i :: 0 <= i < |init| ==> refs[i] == init[i];
        if !Contains(s, last.0) { ReplaceAbsent(s, last.0, last.1); }
      }
    }
  }

  lemma LaterIsAfter(m: Manifest, i: nat, p: string)
    requires p in m && i < |Listing(m)|
    ensures Later(Listing(m)[i].0, p) <==> exists j :: i < j < |Listing(m)| && Listing(m)[j].0 == p
  {
    var refs := Listing(m);
    ListingMembers(m);
    ListingDistinct(m);
    var j :| 0 <= j < |refs| && refs[j] == (p, m[p]);
    if j < i {
      assert RefLeq(refs[j], refs[i]);
      if |p| == |refs[i].0| && LexLeq(refs[i].0, p) { LexAntisymmetric(refs[i].0, p); }
    } else if i < j {
      assert RefLeq(refs[i], refs[j]);
    }
  }

  /** A plain path cannot contain a different plain path listed before it. */
  lemma EarlierAbsent(m: Manifest, i: nat)
    requires i < |Listing(m)| && "" !in m
    ensures NoneOccurs(Listing(m)[i].0, Listing(m)[..i])
  {
    var refs := Listing(m);
    ListingDistinct(m);
    var q := refs[i].0;
    forall j | 0 <= j < i
      ensures !Contains(q, refs[..i][j].0)
    {
      var p := refs[j].0;
      assert RefLeq(refs[j], refs[i]) && p != q;
      forall k: nat
        ensures !OccursAt(q, p, k)
      {
        if k <= |q| && |q[k..]| == |p| {
          assert k == 0 && q[0..] == q;
        }
      }
    }
  }

  /** The listing after position `i` holds exactly the later plain paths. */
  lemma NoneAfterIff(m: Manifest, i: nat, h: string)
    requires i < |Listing(m)|
    ensures NoneOccurs(h, Listing(m)[i + 1..])
       <==> forall p :: p in m && Later(Listing(m)[i].0, p) ==> !Contains(h, p)
  {
    var refs, q, post := Listing(m), Listing(m)[i].0, Listing(m)[i + 1..];
    ListingMembers(m);
    if NoneOccurs(h, post) {
      forall p | p in m && Later(q, p)
        ensures !Contains(h, p)
      {
        LaterIsAfter(m, i, p);
        var j :| i < j < |refs| && refs[j].0 == p;
        assert post[j - i - 1] == refs[j];
      }
    }
    if forall p :: p in m && Later(q, p) ==> !Contains(h, p) {
      forall j | 0 <= j < |post|
        ensures !Contains(h, post[j].0)
      {
        assert post[j] == refs[i + 1 + j] && refs[i + 1 + j] in m.Items;
        LaterIsAfter(m, i, post[j].0);
      }
    }
  }

  lemma RewriteReference(m: Manifest, i: nat)
    requires "" !in m && i < |Listing(m)| && Growing(Listing(m)) && NonEmptyKeys(Listing(m))
    ensures Rewrite(Listing(m)[i].0, m) == ReplaceAll(Listing(m)[i].1, Listing(m)[i + 1..])
  {
    var refs := Listing(m);
    var q, pre, mid, post := refs[i].0, refs[..i], [refs[i]], refs[i + 1..];
    assert refs == pre + mid + post;
    ReplaceAllConcat(q, pre + mid, post);
    ReplaceAllConcat(q, pre, mid);
    EarlierAbsent(m, i);
    UnchangedIffNoneOccurs(q, pre);
    SingleReplace(q, refs[i].1);
  }

  /**
   Exactness: rewriting the bare reference `q` yields its own hashed path if and only if no plain
   path listed after `q` occurs in that hashed path.
   */
  lemma {:induction false} OwnHashedPathIff(m: Manifest, q: string)
    requires "" !in m && q in m && forall k :: k in m ==> |k| < |m[k]|
    ensures Rewrite(q, m) == m[q] <==> forall p :: p in m && Later(q, p) ==> !Contains(m[q], p)
  {
    var refs := Listing(m);
    ListingMembers(m);
    assert Growing(refs) by {
      assert forall j :: 0 <= j < |refs| ==> refs[j] in m.Items;
    }
    var i :| 0 <= i < |refs| && refs[i] == (q, m[q]);
    RewriteReference(m, i);
    UnchangedIffNoneOccurs(m[q], refs[i + 1..]);
    NoneAfterIff(m, i, m[q]);
  }

  lemma SingleReplace(q: string, h: string)
    requires q != ""
    ensures ReplaceAll(q, [(q, h)]) == h
  {
    assert [(q, h)][..0] == [];
    assert q + "" == q && h + "" == h;
    ReplaceHead("", q, h);
  }

  lemma {:induction false} ReplaceAllAcrossSeparator(a: string, c: char, b: string, refs: seq<Ref>)
    requires NonEmptyKeys(refs) && forall i :: 0 <= i < |refs| ==> c !in refs[i].0
    ensures ReplaceAll(a + [c] + b, refs) == ReplaceAll(a, refs) + [c] + ReplaceAll(b, refs)
  {
    if refs != [] {
      var init, last := refs[..|refs| - 1], refs[|refs| - 1];
      ReplaceAllAcrossSeparator(a, c, b, init);
      ReplaceAcrossSeparator(ReplaceAll(a, init), c, ReplaceAll(b, init), last.0, last.1);
    }
  }

  /** Text on the two sides of a character foreign to all plain paths is rewritten independently. */
  lemma RewriteAcrossSeparator(a: string, c: char, b: string, m: Manifest)
    requires "" !in m && forall k :: k in m ==> c !in k
    ensures Rewrite(a + [c] + b, m) == Rewrite(a, m) + [c] + Rewrite(b, m)
  {
    ListingMembers(m);
    forall i | 0 <= i < |Listing(m)|
      ensures c !in Listing(m)[i].0
    {
      assert Listing(m)[i] in m.Items;
    }
    ReplaceAllAcrossSeparator(a, c, b, Listing(m));
  }

  /** The same exactness for a reference between delimiters, anywhere in a text. */
  lemma {:induction false} DelimitedReferenceIff(a: string, c: char, q: string, d: char, b: string, m: Manifest)
    requires "" !in m && q in m && forall k :: k in m ==> |k| < |m[k]| && c !in k && d !in k
    ensures Rewrite(a + [c] + q + [d] + b, m) == Rewrite(a, m) + [c] + m[q] + [d] + Rewrite(b, m)
       <==> forall p :: p in m && Later(q, p) ==> !Contains(m[q], p)
  {
    RewriteAcrossSeparator(a, c, q, m);
    RewriteAcrossSeparator(a + [c] + q, d, b, m);
    OwnHashedPathIff(m, q);
    var x, y, z := Rewrite(a, m) + [c], Rewrite(q, m), [d] + Rewrite(b, m);
    assert Rewrite(a + [c] + q + [d] + b, m) == x + y + z;
    assert Rewrite(a, m) + [c] + m[q] + [d] + Rewrite(b, m) == x + m[q] + z;
    if x + y + z == x + m[q] + z {
      assert |y| == |m[q]|;
      assert y == (x + y + z)[|x|..|x| + |y|] == (x + m[q] + z)[|x|..|x| + |y|] == m[q];
    }
  }
}
