/**
 Whole-run results: the names do not depend on the visiting order, they solve a recursive equation
 over the graph, and the dist directory holds exactly the finalised texts.
 */
module AssetTheorems {
  import opened Strings
  import opened AssetRewrite
  import opened AssetNaming
  import opened AssetGraph
  import opened AssetWriter

  ghost predicate CompleteLog(g: Graph, hash: string -> Digest, log: seq<Entry>) {
    ValidLog(g, hash, log) && LogManifest(log).Keys == g.Keys
  }

  function Restrict(m: Manifest, keys: seq<string>): Manifest {
    map k | k in m && k in keys :: m[k]
  }

  /** The text of an asset with each of its references replaced, all at once, by the name `m` gives. */
  function SpecContent(g: Graph, m: Manifest, p: string): string
    requires p in g
  {
    Substitute(g[p].content, Restrict(m, g[p].dependencies))
  }

  /** The naming equation: a name carries the hash of the text rewritten with the dependencies' names. */
  ghost predicate Named(g: Graph, hash: string -> Digest, m: Manifest, p: string)
    requires p in g
  {
    p in m && m[p] == FinalName(hash, p, SpecContent(g, m, p))
  }

  ghost predicate Solves(g: Graph, hash: string -> Digest, m: Manifest) {
    m.Keys == g.Keys && forall p :: p in g ==> Named(g, hash, m, p)
  }

  /**
   The condition on the file names: all below one root that shows up nowhere else in a path, and no
   plain path is a prefix of a hashed path of another asset, whatever the hash.
   */
  ghost predicate SafeNames(g: Graph, root: string) {
    && IsRoot(root)
    && (forall p :: p in g ==> Rooted(p, root))
    && (forall q, p, tag :: q in g && p in g && q != p && IsTag(tag) ==> !(p <= HashedStaticAssetPath(q, tag)))
  }

  /**
   A check that needs no hashes: file names are safe if no plain path agrees with the beginning of
   another asset's hashed path up to the dot in front of the hash.
   */
  lemma {:induction false} SafeWithoutHashes(g: Graph, root: string)
    requires IsRoot(root) && forall p :: p in g ==> Rooted(p, root)
    requires forall q, p :: q in g && p in g && q != p ==> !Comparable(p, BeforeTag(q))
    ensures SafeNames(g, root)
  {
    hide Rooted, Comparable, BeforeTag, HashedStaticAssetPath, IsTag, IsRoot;
    forall q, p, tag | q in g && p in g && q != p && IsTag(tag)
      ensures !(p <= HashedStaticAssetPath(q, tag))
    {
      PrefixThroughTag(q, p, tag);
    }
  }

  lemma PrefixThroughTag(q: string, p: string, tag: string)
    ensures p <= HashedStaticAssetPath(q, tag) ==> Comparable(p, BeforeTag(q))
  {
    hide HashedStaticAssetPath, BeforeTag;
    BeforeTagIsPrefix(q, tag);
    if p <= HashedStaticAssetPath(q, tag) {
      ComparableThroughPrefix(p, HashedStaticAssetPath(q, tag), BeforeTag(q));
    }
  }

  // ---- The manifest of a log ------------------------------------------------------------------

  lemma {:induction false} LogNamesAreHashed(g: Graph, hash: string -> Digest, log: seq<Entry>)
    requires ValidLog(g, hash, log)
    ensures HashedNames(LogManifest(log)) && LogManifest(log).Keys <= g.Keys
  {
    if log != [] {
      hide Rewrite, HashedStaticAssetPath, Tag;
      var init, e := log[..|log| - 1], log[|log| - 1];
      LogNamesAreHashed(g, hash, init);
      assert IsTag(Tag(hash, e.content)) && e.name == HashedStaticAssetPath(e.path, Tag(hash, e.content));
    }
  }

  lemma SafeNamesAreClean(g: Graph, root: string, m: Manifest)
    requires SafeNames(g, root) && HashedNames(m) && m.Keys <= g.Keys
    ensures Clean(m) && "" !in m
  {
    forall q, p | q in m && p in m && Later(q, p)
      ensures !(p <= m[q])
    {
      var tag :| IsTag(tag) && m[q] == HashedStaticAssetPath(q, tag);
    }
    RootedNoPrefixPairIsClean(m, root);
  }

  /** The text written for an entry is the simultaneous substitution of its dependencies' names. */
  lemma EntryMeetsSpec(g: Graph, hash: string -> Digest, root: string, log: seq<Entry>, e: Entry)
    requires SafeNames(g, root) && MentionsOnlyDependencies(g)
    requires ValidLog(g, hash, log) && EntryOk(g, hash, log, e)
    ensures e.content == SpecContent(g, LogManifest(log), e.path)
  {
    hide ValidLog, LogManifest, FinalName, SafeNames, Substitute, Rewrite;
    var m, text := LogManifest(log), g[e.path].content;
    LogNamesAreHashed(g, hash, log);
    SafeNamesAreClean(g, root, m);
    SequentialIsSimultaneous(text, m);
    SubstituteIgnoresAbsent(text, m, Restrict(m, g[e.path].dependencies));
  }

  /** Later insertions do not touch the names an asset was rewritten with. */
  lemma NamedIsStable(g: Graph, hash: string -> Digest, m: Manifest, k: string, v: string, p: string)
    requires p in g && Named(g, hash, m, p) && k !in m
    requires forall d :: d in g[p].dependencies ==> d in m
    ensures Named(g, hash, m[k := v], p)
  {
    assert Restrict(m[k := v], g[p].dependencies) == Restrict(m, g[p].dependencies);
  }

  ghost predicate AllNamed(g: Graph, hash: string -> Digest, m: Manifest) {
    m.Keys <= g.Keys && forall p :: p in m ==> Named(g, hash, m, p) && forall d :: d in g[p].dependencies ==> d in m
  }

  lemma AllNamedStep(g: Graph, hash: string -> Digest, m: Manifest, e: Entry)
    requires AllNamed(g, hash, m) && e.path in g && e.path !in m
    requires forall d :: d in g[e.path].dependencies ==> d in m
    requires e.content == SpecContent(g, m, e.path) && e.name == FinalName(hash, e.path, e.content)
    ensures AllNamed(g, hash, m[e.path := e.name])
  {
    var m' := m[e.path := e.name];
    assert Restrict(m', g[e.path].dependencies) == Restrict(m, g[e.path].dependencies);
    forall p | p in m'
      ensures Named(g, hash, m', p) && forall d :: d in g[p].dependencies ==> d in m'
    {
      if p != e.path { NamedIsStable(g, hash, m, e.path, e.name, p); }
    }
  }

  lemma {:induction false} LogIsNamed(g: Graph, hash: string -> Digest, root: string, log: seq<Entry>)
    requires SafeNames(g, root) && MentionsOnlyDependencies(g) && ValidLog(g, hash, log)
    ensures AllNamed(g, hash, LogManifest(log))
  {
    if log != [] {
      hide SafeNames, AllNamed, FinalName, Rewrite, SpecContent, MentionsOnlyDependencies;
      var init, e := log[..|log| - 1], log[|log| - 1];
      LogIsNamed(g, hash, root, init);
      EntryMeetsSpec(g, hash, root, init, e);
      AllNamedStep(g, hash, LogManifest(init), e);
    }
  }

  /** The memoised walk computes a solution of the recursive naming equation. */
  lemma {:induction false} CompleteLogSolves(g: Graph, hash: string -> Digest, root: string, log: seq<Entry>)
    requires SafeNames(g, root) && MentionsOnlyDependencies(g) && CompleteLog(g, hash, log)
    ensures Solves(g, hash, LogManifest(log))
  {
    LogIsNamed(g, hash, root, log);
  }

  ghost predicate AgreeOn(keys: set<string>, m: Manifest, m': Manifest) {
    forall p :: p in keys ==> p in m && p in m' && m[p] == m'[p]
  }

  lemma NothingToAgree(m: Manifest, m': Manifest)
    ensures AgreeOn({}, m, m')
  {
  }

  lemma AgreeStep(g: Graph, hash: string -> Digest, keys: set<string>, m: Manifest, m': Manifest, p: string)
    requires AgreeOn(keys, m, m') && p in g && Named(g, hash, m, p) && Named(g, hash, m', p)
    requires forall d :: d in g[p].dependencies ==> d in keys
    ensures AgreeOn(keys + {p}, m, m')
  {
    assert Restrict(m, g[p].dependencies) == Restrict(m', g[p].dependencies);
  }

  /** On the assets of a dependency-closed log any two solutions agree. */
  lemma {:induction false} SolutionsAgree(g: Graph, hash: string -> Digest, log: seq<Entry>, m: Manifest, m': Manifest)
    requires ValidLog(g, hash, log) && Solves(g, hash, m) && Solves(g, hash, m')
    ensures AgreeOn(LogManifest(log).Keys, m, m')
  {
    hide ValidLog, LogManifest, EntryOk, FinalName, Named, AgreeOn;
    if log == [] {
      EmptyLog(g, hash, map[]);
      assert LogManifest(log).Keys == {};
      NothingToAgree(m, m');
    } else {
      LastEntry(g, hash, log);
      var init, e := log[..|log| - 1], log[|log| - 1];
      SolutionsAgree(g, hash, init, m, m');
      AgreeStep(g, hash, LogManifest(init).Keys, m, m', e.path);
      assert LogManifest(log).Keys == LogManifest(init).Keys + {e.path};
    }
  }

  /** The naming equation has exactly one solution on a graph the walk can finish. */
  lemma {:induction false} SolutionIsUnique(g: Graph, hash: string -> Digest, log: seq<Entry>, m: Manifest, m': Manifest)
    requires CompleteLog(g, hash, log) && Solves(g, hash, m) && Solves(g, hash, m')
    ensures m == m'
  {
    hide ValidLog, LogManifest, Named;
    SolutionsAgree(g, hash, log, m, m');
    assert m.Keys == m'.Keys == g.Keys;
  }

  /** Whatever the visiting order, the manifest is the same. */
  lemma {:induction false} ManifestIsOrderIndependent(g: Graph, hash: string -> Digest, root: string, log: seq<Entry>, log': seq<Entry>)
    requires SafeNames(g, root) && MentionsOnlyDependencies(g)
    requires CompleteLog(g, hash, log) && CompleteLog(g, hash, log')
    ensures LogManifest(log) == LogManifest(log')
  {
    hide SafeNames, MentionsOnlyDependencies, CompleteLog, Solves;
    CompleteLogSolves(g, hash, root, log);
    CompleteLogSolves(g, hash, root, log');
    SolutionIsUnique(g, hash, log, LogManifest(log), LogManifest(log'));
  }

  // ---- The order matters when a mention is not recorded -------------------------------------

  /**
   An undelimited mention is not a dependency, yet it is rewritten if the mentioned asset happens to
   be final already: visited second, `x` is rewritten; visited first, it is left as it is.
   */
  lemma {:induction false} UnrecordedMentionMakesOrderMatter(g: Graph, hash: string -> Digest, a: string, x: string)
    requires a != x && a != "" && x != "" && g.Keys == {a, x}
    requires g[a].dependencies == [] && g[x].dependencies == [] && Contains(g[x].content, a)
    ensures exists e, e', f, f' :: (
      CompleteLog(g, hash, [e, f]) && CompleteLog(g, hash, [f', e'])
      && e.path == e'.path == a && f.path == f'.path == x
      && f'.content == g[x].content && f.content == Replace(g[x].content, a, e.name) != g[x].content)
  {
    hide CompleteLog, ValidLog, LogManifest, Rewrite, HashedStaticAssetPath;
    var e := FirstEntry(g, hash, a);
    var f' := FirstEntry(g, hash, x);
    var f := SecondEntry(g, hash, e, x);
    var e' := SecondEntry(g, hash, f', a);
    HashedPathGrows(a, Tag(hash, e.content));
    RewriteSingle(g[x].content, a, e.name);
    ReplaceGrows(g[x].content, a, e.name);
    assert CompleteLog(g, hash, [e, f]) && CompleteLog(g, hash, [f', e']);
  }

  lemma RewriteSingle(s: string, k: string, v: string)
    requires k != ""
    ensures Rewrite(s, map[k := v]) == Replace(s, k, v)
  {
    var m := map[k := v];
    ListingMembers(m);
    ItemsWithout(m, k);
    assert m - {k} == map[];
    assert m.Items == {(k, v)};
    assert |Listing(m)| == |multiset(Listing(m))| == |multiset(m.Items)| == 1;
    assert Listing(m)[0] in m.Items;
    var refs := [(k, v)];
    assert Listing(m) == refs && refs[..|refs| - 1] == [];
    assert ReplaceAll(s, refs) == Replace(ReplaceAll(s, refs[..|refs| - 1]), k, v);
  }

  lemma RewriteNothing(s: string)
    ensures Rewrite(s, map[]) == s
  {
    var m: Manifest := map[];
    assert |Listing(m)| == |multiset(Listing(m))| == |multiset(m.Items)| == 0;
  }

  lemma FirstEntry(g: Graph, hash: string -> Digest, p: string) returns (e: Entry)
    requires p in g && g[p].dependencies == []
    ensures ValidLog(g, hash, [e]) && e.path == p && e.content == g[p].content && LogManifest([e]) == map[p := e.name]
    ensures e.name == FinalName(hash, p, e.content)
  {
    hide Rewrite, FinalName;
    RewriteNothing(g[p].content);
    e := Entry(p, g[p].content, FinalName(hash, p, g[p].content));
    assert [e][..0] == [];
    assert EntryOk(g, hash, [], e);
  }

  lemma SecondEntry(g: Graph, hash: string -> Digest, e: Entry, p: string) returns (f: Entry)
    requires p in g && g[p].dependencies == [] && e.path != p && e.path != "" && g.Keys == {e.path, p}
    requires ValidLog(g, hash, [e]) && LogManifest([e]) == map[e.path := e.name]
    ensures CompleteLog(g, hash, [e, f]) && f.path == p
    ensures f.content == Rewrite(g[p].content, map[e.path := e.name])
  {
    hide Rewrite, FinalName;
    var content := Rewrite(g[p].content, map[e.path := e.name]);
    f := Entry(p, content, FinalName(hash, p, content));
    assert EntryOk(g, hash, [e], f);
    assert [e] + [f] == [e, f];
    ExtendLog(g, hash, map[], [e], f);
  }

  // ---- The dist directory ---------------------------------------------------------------------

  ghost predicate DistinctNames(g: Graph, log: seq<Entry>) {
    && (forall i, j :: 0 <= i < j < |log| ==> log[i].name != log[j].name)
    && (forall i :: 0 <= i < |log| ==> log[i].name !in g)
  }

  /** Exactly the finalised texts are added and exactly the plain copies are removed. */
  ghost predicate DistExact(dist: map<string, string>, log: seq<Entry>, result: map<string, string>) {
    && (forall i :: 0 <= i < |log| ==> log[i].name in result && result[log[i].name] == log[i].content)
    && (forall k :: k in result ==> (exists i :: 0 <= i < |log| && log[i].name == k) || (k in dist && result[k] == dist[k]))
    && (forall k :: k in dist && k !in LogManifest(log) ==> k in result)
    && (forall k :: k in LogManifest(log) ==> k !in result)
  }

  lemma DistStep(g: Graph, dist: map<string, string>, init: seq<Entry>, e: Entry, result: map<string, string>)
    requires DistExact(dist, init, result) && DistinctNames(g, init + [e]) && e.path in g && LogManifest(init).Keys <= g.Keys
    requires LogManifest(init + [e]) == LogManifest(init)[e.path := e.name]
    ensures DistExact(dist, init + [e], result[e.name := e.content] - {e.path})
  {
    hide LogManifest;
    var log := init + [e];
    var result' := result[e.name := e.content] - {e.path};
    assert log[|init|] == e && forall i :: 0 <= i < |init| ==> log[i] == init[i];
    forall i | 0 <= i < |log|
      ensures log[i].name in result' && result'[log[i].name] == log[i].content
    {
      assert log[i].name !in g;
    }
    forall k | k in result'
      ensures (exists i :: 0 <= i < |log| && log[i].name == k) || (k in dist && result'[k] == dist[k])
    {
      if k != e.name && exists i :: 0 <= i < |init| && init[i].name == k {
        var i :| 0 <= i < |init| && init[i].name == k;
        assert log[i].name == k;
      }
    }
  }

  lemma {:induction false} DistFollowsLog(g: Graph, hash: string -> Digest, dist: map<string, string>, log: seq<Entry>)
    requires ValidLog(g, hash, log) && DistinctNames(g, log)
    ensures LogManifest(log).Keys <= g.Keys && DistExact(dist, log, LogDist(dist, log))
  {
    hide ValidLog, LogManifest, EntryOk, FinalName;
    if log == [] {
      EmptyLog(g, hash, dist);
    } else {
      LastEntry(g, hash, log);
      var init, e := log[..|log| - 1], log[|log| - 1];
      assert DistinctNames(g, init) by {
        assert forall i :: 0 <= i < |init| ==> init[i] == log[i];
      }
      DistFollowsLog(g, hash, dist, init);
      DistStep(g, dist, init, e, LogDist(dist, init));
    }
  }

  lemma {:induction false} LogEntries(g: Graph, hash: string -> Digest, log: seq<Entry>)
    requires ValidLog(g, hash, log)
    ensures forall i :: 0 <= i < |log| ==> log[i].path in LogManifest(log)
    ensures forall i :: 0 <= i < |log| ==> log[i].path in g && log[i].name == FinalName(hash, log[i].path, log[i].content)
    ensures forall i, j :: 0 <= i < j < |log| ==> log[i].path != log[j].path
  {
    hide ValidLog, LogManifest, EntryOk, FinalName;
    if log != [] {
      LastEntry(g, hash, log);
      var init := log[..|log| - 1];
      LogEntries(g, hash, init);
      forall i | 0 <= i < |log|
        ensures log[i].path in LogManifest(log) && log[i].path in g
        ensures log[i].name == FinalName(hash, log[i].path, log[i].content)
        ensures i < |init| ==> log[i].path != log[|log| - 1].path
      {
        if i < |init| { assert log[i] == init[i]; }
      }
      assert forall i, j :: 0 <= i < j < |init| ==> log[i].path != log[j].path by {
        assert forall i :: 0 <= i < |init| ==> log[i] == init[i];
      }
    }
  }

  /**
   No finalised asset overwrites another one or a plain copy: after a run the dist directory is the
   copied directory without the plain copies, plus every finalised text under its hashed path.
   */
  lemma {:induction false} DistHoldsEveryAsset(g: Graph, hash: string -> Digest, root: string, dist: map<string, string>, log: seq<Entry>)
    requires SafeNames(g, root) && ValidLog(g, hash, log) && forall p :: p in g ==> !EndsInDot(p)
    ensures DistExact(dist, log, LogDist(dist, log))
  {
    hide ValidLog, LogManifest, LogDist, DistExact, HashedStaticAssetPath, EndsInDot;
    LogEntries(g, hash, log);
    forall i | 0 <= i < |log|
      ensures log[i].name !in g
    {
      var tag := Tag(hash, log[i].content);
      HashedPathGrows(log[i].path, tag);
      assert log[i].name <= HashedStaticAssetPath(log[i].path, tag);
    }
    forall i, j | 0 <= i < j < |log|
      ensures log[i].name != log[j].name
    {
      if log[i].name == log[j].name {
        HashedPathInjective(log[i].path, log[j].path, Tag(hash, log[i].content), Tag(hash, log[j].content));
      }
    }
    DistFollowsLog(g, hash, dist, log);
  }
}
