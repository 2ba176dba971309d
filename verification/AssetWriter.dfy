/** The memoised depth-first walk that finalises every hashable asset. */
module AssetWriter {
  import opened Strings
  import opened AssetRewrite
  import opened AssetNaming
  import opened AssetGraph

  /** A SHA-256 digest in lower-case hex. */
  type Digest = h: string | |h| == 64 && forall i :: 0 <= i < |h| ==> IsHex(h[i])
    witness seq(64, _ => '0')

  /** How the file operations on one asset turn out. */
  datatype Io = Works | ReadFails | WriteFails | RemoveFails

  datatype Outcome =
    | Done
    | Circular(cycle: seq<string>)
    | NotInGraph(path: string)
    | IoError(path: string)

  /** One finalised asset: its plain path, its final text and its hashed path. */
  datatype Entry = Entry(path: string, content: string, name: string)

  function Tag(hash: string -> Digest, content: string): (t: string)
    ensures IsTag(t)
  {
    hash(content)[..8]
  }

  function FinalName(hash: string -> Digest, path: string, content: string): string {
    HashedStaticAssetPath(path, Tag(hash, content))
  }

  /** A final name shows the first eight digits of the hash of the final text. */
  lemma NameCarriesHash(hash: string -> Digest, path: string, content: string)
    ensures CarriesDigits(path, FinalName(hash, path, content), hash(content)[..8])
  {
    hide HashedStaticAssetPath, CarriesDigits;
    HashedCarriesDigits(path, Tag(hash, content));
  }

  lemma NameIsNew(hash: string -> Digest, path: string, content: string)
    ensures FinalName(hash, path, content) != path
  {
    HashedPathGrows(path, Tag(hash, content));
  }

  /** Texts whose hashes differ in the first eight digits give an asset different names. */
  lemma {:induction false} DifferentDigitsDifferentNames(hash: string -> Digest, path: string, content: string, content': string)
    requires hash(content)[..8] != hash(content')[..8]
    ensures FinalName(hash, path, content) != FinalName(hash, path, content')
  {
    hide FinalName;
    NameCarriesHash(hash, path, content);
    NameCarriesHash(hash, path, content');
  }

  /** The manifest built by a log of finalised assets. */
  function LogManifest(log: seq<Entry>): Manifest {
    if log == [] then map[]
    else
      var e := log[|log| - 1];
      LogManifest(log[..|log| - 1])[e.path := e.name]
  }

  /** The dist directory after a log: hashed files written, plain copies removed, in order. */
  function LogDist(dist: map<string, string>, log: seq<Entry>): map<string, string> {
    if log == [] then dist
    else
      var e := log[|log| - 1];
      LogDist(dist, log[..|log| - 1])[e.name := e.content] - {e.path}
  }

  /**
   `e` may be finalised after `log`: it was not finalised before, all its dependencies were, its
   text is rewritten with the manifest so far, and its name carries the hash of that text.
   */
  ghost predicate EntryOk(g: Graph, hash: string -> Digest, log: seq<Entry>, e: Entry) {
    && e.path in g && e.path !in LogManifest(log) && "" !in LogManifest(log)
    && (forall d :: d in g[e.path].dependencies ==> d in LogManifest(log))
    && e.content == Rewrite(g[e.path].content, LogManifest(log))
    && e.name == FinalName(hash, e.path, e.content)
  }

  ghost predicate ValidLog(g: Graph, hash: string -> Digest, log: seq<Entry>) {
    log == [] ||
    (ValidLog(g, hash, log[..|log| - 1]) && EntryOk(g, hash, log[..|log| - 1], log[|log| - 1]))
  }

  lemma ExtendLog(g: Graph, hash: string -> Digest, copied: map<string, string>, log: seq<Entry>, e: Entry)
    requires ValidLog(g, hash, log) && EntryOk(g, hash, log, e)
    ensures ValidLog(g, hash, log + [e])
    ensures LogManifest(log + [e]) == LogManifest(log)[e.path := e.name]
    ensures LogDist(copied, log + [e]) == LogDist(copied, log)[e.name := e.content] - {e.path}
  {
    hide EntryOk;
    assert (log + [e])[..|log + [e]| - 1] == log;
  }

  lemma EmptyLog(g: Graph, hash: string -> Digest, dist: map<string, string>)
    ensures ValidLog(g, hash, []) && LogManifest([]) == map[] && LogDist(dist, []) == dist
  {
  }

  /** The facts a log offers about its last entry. */
  lemma LastEntry(g: Graph, hash: string -> Digest, log: seq<Entry>)
    requires ValidLog(g, hash, log) && log != []
    ensures var init, e := log[..|log| - 1], log[|log| - 1];
            && log == init + [e]
            && ValidLog(g, hash, init) && EntryOk(g, hash, init, e)
            && e.path in g && e.path !in LogManifest(init) && e.name == FinalName(hash, e.path, e.content)
            && (forall d :: d in g[e.path].dependencies ==> d in LogManifest(init))
            && LogManifest(log) == LogManifest(init)[e.path := e.name]
  {
    hide Rewrite, FinalName;
  }

  /** A plain copy stays in the dist directory until its own asset is finalised. */
  lemma {:induction false} PlainCopyStays(g: Graph, hash: string -> Digest, dist: map<string, string>, log: seq<Entry>, p: string)
    requires ValidLog(g, hash, log) && p in dist && p !in LogManifest(log)
    ensures p in LogDist(dist, log)
  {
    if log != [] { PlainCopyStays(g, hash, dist, log[..|log| - 1], p); }
  }

  ghost predicate NoDuplicates(s: seq<string>) {
    forall i, j :: 0 <= i < j < |s| ==> s[i] != s[j]
  }

  lemma CycleFound(g: Graph, visiting: seq<string>, k: nat, p: string)
    requires k < |visiting| && visiting[k] == p && IsPath(g, visiting)
    requires Edge(g, visiting[|visiting| - 1], p)
    ensures IsCycle(g, visiting[k..] + [p])
  {
    var c := visiting[k..] + [p];
    forall i | 0 <= i < |c| - 1
      ensures Edge(g, c[i], c[i + 1])
    {
      if i + 1 < |c| - 1 { assert c[i] == visiting[k + i] && c[i + 1] == visiting[k + i + 1]; }
    }
  }

  /** `visiting` is a duplicate-free path of graph edges, disjoint from the manifest. */
  ghost predicate StackOk(g: Graph, manifest: Manifest, visiting: seq<string>) {
    && NoDuplicates(visiting) && IsPath(g, visiting)
    && forall p :: p in visiting ==> p in g && p !in manifest
  }

  /** What the walk is given: the graph, the hash, the fate of file operations, the copied directory. */
  datatype Setting = Setting(graph: Graph, hash: string -> Digest, io: string -> Io, copied: map<string, string>)

  /** What every step of the walk keeps. */
  ghost predicate Sound(c: Setting, manifest: Manifest, visiting: seq<string>, log: seq<Entry>) {
    && "" !in c.graph && c.graph.Keys <= c.copied.Keys
    && ValidLog(c.graph, c.hash, log) && manifest == LogManifest(log) && manifest.Keys <= c.graph.Keys
    && StackOk(c.graph, manifest, visiting)
    && (forall p :: p in manifest ==> c.io(p) == Works)
  }

  ghost function Unvisited(c: Setting, visiting: seq<string>): set<string> {
    c.graph.Keys - (set p | p in visiting)
  }

  lemma SoundPush(c: Setting, manifest: Manifest, visiting: seq<string>, log: seq<Entry>, p: string)
    requires Sound(c, manifest, visiting, log) && p in c.graph && p !in manifest && p !in visiting
    requires visiting != [] ==> Edge(c.graph, visiting[|visiting| - 1], p)
    ensures Sound(c, manifest, visiting + [p], log)
    ensures Unvisited(c, visiting + [p]) < Unvisited(c, visiting)
  {
    assert p in Unvisited(c, visiting) && p in visiting + [p];
  }

  lemma SoundPop(c: Setting, manifest: Manifest, visiting: seq<string>, log: seq<Entry>, p: string)
    requires Sound(c, manifest, visiting + [p], log)
    ensures Sound(c, manifest, visiting, log) && p !in visiting && p in c.graph && p !in manifest
  {
    var v := visiting + [p];
    assert v[|visiting|] == p && forall i :: 0 <= i < |visiting| ==> v[i] == visiting[i];
    assert p in v;
    assert forall q :: q in visiting ==> q in v;
  }

  lemma SoundEntry(c: Setting, manifest: Manifest, visiting: seq<string>, log: seq<Entry>, e: Entry)
    requires Sound(c, manifest, visiting, log) && e.path in c.graph && e.path !in manifest && e.path !in visiting
    requires forall d :: d in c.graph[e.path].dependencies ==> d in manifest
    requires c.io(e.path) == Works && "" !in manifest
    requires e.content == Rewrite(c.graph[e.path].content, manifest) && e.name == FinalName(c.hash, e.path, e.content)
    ensures e.path in LogDist(c.copied, log)
    ensures Sound(c, manifest[e.path := e.name], visiting, log + [e])
    ensures LogDist(c.copied, log + [e]) == LogDist(c.copied, log)[e.name := e.content] - {e.path}
  {
    hide Rewrite, FinalName;
    PlainCopyStays(c.graph, c.hash, c.copied, log, e.path);
    ExtendLog(c.graph, c.hash, c.copied, log, e);
  }

  method Position(s: seq<string>, x: string) returns (k: int)
    ensures k < |s| && (k >= 0 ==> s[k] == x) && (k < 0 ==> x !in s)
  {
    for i := 0 to |s|
      invariant x !in s[..i]
    {
      if s[i] == x {
        return i;
      }
    }
    k := -1;
  }

  /** What a report means: a real cycle of graph edges, a path outside the graph, a failed operation. */
  ghost predicate Justified(c: Setting, r: Outcome) {
    match r
    case Done => true
    case Circular(cycle) => IsCycle(c.graph, cycle)
    case NotInGraph(p) => p !in c.graph
    case IoError(p) => p in c.graph && c.io(p) != Works
  }

  class Writer {
    const c: Setting
    var manifest: Manifest
    var visiting: seq<string>
    var dist: map<string, string>
    /** Finalised assets in the order of their insertion into the manifest. */
    ghost var log: seq<Entry>

    constructor (c: Setting, dist: map<string, string>)
      requires "" !in c.graph && c.graph.Keys <= dist.Keys && c.copied == dist
      ensures this.c == c && Valid() && DistOk() && visiting == [] && log == []
    {
      this.c, this.manifest, this.visiting, this.dist, this.log := c, map[], [], dist, [];
    }

    ghost predicate Valid()
      reads this
    {
      Sound(c, manifest, visiting, log)
    }

    ghost predicate DistOk()
      reads this
    {
      dist == LogDist(c.copied, log)
    }

    /** Nothing finalised is undone. */
    twostate predicate Extended()
      reads this
    {
      old(log) <= log && old(manifest.Keys) <= manifest.Keys
    }

    method WriteHashedStaticAsset(path: string) returns (r: Outcome)
      requires Valid() && DistOk()
      requires visiting != [] ==> Edge(c.graph, visiting[|visiting| - 1], path)
      modifies this
      ensures Valid() && Justified(c, r) && Extended()
      ensures r.Done? ==> DistOk() && visiting == old(visiting) && path in manifest
      ensures r.NotInGraph? ==> r.path == path || exists a :: Edge(c.graph, a, r.path)
      decreases Unvisited(c, visiting), 1
    {
      if path in manifest {
        return Done;
      }
      var position := Position(visiting, path);
      if position >= 0 {
        CycleFound(c.graph, visiting, position, path);
        return Circular(visiting[position..] + [path]);
      }
      if path !in c.graph {
        return NotInGraph(path);
      }
      r := PushAndWrite(path);
    }

    method PushAndWrite(path: string) returns (r: Outcome)
      requires Valid() && DistOk() && path in c.graph && path !in manifest && path !in visiting
      requires visiting != [] ==> Edge(c.graph, visiting[|visiting| - 1], path)
      modifies this
      ensures Valid() && Justified(c, r) && Extended()
      ensures r.Done? ==> DistOk() && visiting == old(visiting) && path in manifest
      ensures r.NotInGraph? ==> exists a :: Edge(c.graph, a, r.path)
      decreases Unvisited(c, visiting), 0
    {
      hide Sound, LogDist, Justified, CarriesDigits;
      SoundPush(c, manifest, visiting, log, path);
      visiting := visiting + [path];
      r := WriteDependencies(path);
      if !r.Done? {
        return;
      }
      SoundPop(c, manifest, visiting[..|visiting| - 1], log, path);
      visiting := visiting[..|visiting| - 1];
      r := Finalise(path);
    }

    /** The loop over the dependencies of the asset on top of the stack. */
    method WriteDependencies(path: string) returns (r: Outcome)
      requires Valid() && DistOk() && visiting != [] && visiting[|visiting| - 1] == path && path in c.graph
      modifies this
      ensures Valid() && Justified(c, r) && Extended()
      ensures r.Done? ==> DistOk() && visiting == old(visiting)
      ensures r.Done? ==> forall d :: d in c.graph[path].dependencies ==> d in manifest
      ensures r.NotInGraph? ==> exists a :: Edge(c.graph, a, r.path)
      decreases Unvisited(c, visiting), 2
    {
      hide Sound, LogDist;
      var dependencies := c.graph[path].dependencies;
      for i := 0 to |dependencies|
        invariant Valid() && DistOk() && Extended() && visiting == old(visiting)
        invariant forall k :: 0 <= k < i ==> dependencies[k] in manifest
      {
        assert Edge(c.graph, path, dependencies[i]);
        r := WriteHashedStaticAsset(dependencies[i]);
        if !r.Done? {
          return;
        }
      }
      r := Done;
    }

    /** Rewrites, hashes and writes one asset whose dependencies are final. */
    method Finalise(path: string) returns (r: Outcome)
      requires Valid() && DistOk() && path in c.graph && path !in manifest && path !in visiting
      requires "" !in manifest && forall d :: d in c.graph[path].dependencies ==> d in manifest
      modifies this
      ensures Valid() && Justified(c, r) && Extended() && visiting == old(visiting)
      ensures r.Done? ==> DistOk() && path in manifest && |log| == |old(log)| + 1 && log[|log| - 1].path == path
      ensures r.Done? ==> manifest[path] in dist && CarriesDigits(path, manifest[path], c.hash(dist[manifest[path]])[..8])
      ensures !r.Done? ==> r == IoError(path) && log == old(log) && manifest == old(manifest)
      ensures !r.Done? && c.io(path) != RemoveFails ==> dist == old(dist)
      ensures c.io(path) == RemoveFails ==>
        exists name, text :: dist == old(dist)[name := text] && CarriesDigits(path, name, c.hash(text)[..8])
    {
      hide Sound, LogDist, Rewrite, FinalName, CarriesDigits;
      if c.io(path) == ReadFails {
        return IoError(path);
      }
      var content := ReplaceHashedAssetsRefsInContent(c.graph[path].content, manifest);
      var name := FinalName(c.hash, path, content);
      if c.io(path) == WriteFails {
        return IoError(path);
      }
      dist := dist[name := content];
      NameCarriesHash(c.hash, path, content);
      if c.io(path) == RemoveFails {
        return IoError(path);
      }
      SoundEntry(c, manifest, visiting, log, Entry(path, content, name));
      assert name != path by { NameIsNew(c.hash, path, content); }
      assert path in dist;
      dist := dist - {path};
      manifest := manifest[path := name];
      log := log + [Entry(path, content, name)];
      r := Done;
    }

    /**
     The whole walk, over the keys in any order. It ends with every asset finalised exactly when the
     graph is acyclic and dependency-closed and no file operation fails; otherwise it reports why.
     */
    method WriteHashedStaticAssets(order: seq<string>) returns (r: Outcome)
      requires Valid() && DistOk() && visiting == [] && log == []
      requires forall p :: p in order <==> p in c.graph
      modifies this
      ensures Valid() && Justified(c, r)
      ensures r.Done? <==> Acyclic(c.graph) && Closed(c.graph) && forall p :: p in c.graph ==> c.io(p) == Works
      ensures r.Done? ==> DistOk() && visiting == [] && manifest.Keys == c.graph.Keys
      ensures r.NotInGraph? ==> exists a :: Edge(c.graph, a, r.path)
    {
      hide Sound, LogDist, Acyclic, Closed;
      for i := 0 to |order|
        invariant Valid() && DistOk() && visiting == []
        invariant forall k :: 0 <= k < i ==> order[k] in manifest
      {
        assert order[i] in c.graph;
        r := WriteHashedStaticAsset(order[i]);
        if !r.Done? {
          ErrorsAreReal(c, r);
          return;
        }
      }
      assert forall p :: p in c.graph ==> p in manifest;
      SoundAndComplete(c, manifest, visiting, log);
      r := Done;
    }
  }

  // ---- What a log of finalised assets says about the graph ----------------------------------

  /** Position of each asset in the insertion order. */
  ghost function LogRank(log: seq<Entry>): map<string, nat> {
    if log == [] then map[] else LogRank(log[..|log| - 1])[log[|log| - 1].path := |log| - 1]
  }

  /** Every ranked asset lies in the graph, below `n`, and above all of its dependencies. */
  ghost predicate Topological(g: Graph, rank: map<string, nat>, n: nat) {
    && rank.Keys <= g.Keys
    && (forall p :: p in rank ==> rank[p] < n)
    && (forall a, b :: a in rank && b in g[a].dependencies ==> b in rank && rank[b] < rank[a])
  }

  lemma NothingRanked(g: Graph)
    ensures Topological(g, map[], 0)
  {
  }

  lemma TopologicalStep(g: Graph, rank: map<string, nat>, n: nat, p: string)
    requires Topological(g, rank, n) && p in g && p !in rank
    requires forall d :: d in g[p].dependencies ==> d in rank
    ensures Topological(g, rank[p := n], n + 1)
  {
  }

  /** The insertion order is topological. */
  lemma {:induction false} LogIsTopological(g: Graph, hash: string -> Digest, log: seq<Entry>)
    requires ValidLog(g, hash, log)
    ensures LogRank(log).Keys == LogManifest(log).Keys && Topological(g, LogRank(log), |log|)
  {
    hide Topological, ValidLog, LogManifest, EntryOk, FinalName;
    if log == [] {
      EmptyLog(g, hash, map[]);
      NothingRanked(g);
    } else {
      LastEntry(g, hash, log);
      var init, e := log[..|log| - 1], log[|log| - 1];
      LogIsTopological(g, hash, init);
      TopologicalStep(g, LogRank(init), |init|, e.path);
    }
  }

  lemma {:induction false} CompleteLogMeansAcyclic(g: Graph, hash: string -> Digest, log: seq<Entry>)
    requires ValidLog(g, hash, log) && LogManifest(log).Keys == g.Keys
    ensures Acyclic(g) && Closed(g)
  {
    hide ValidLog, LogManifest;
    LogIsTopological(g, hash, log);
    RankedIsAcyclic(g, LogRank(log));
  }

  lemma SoundAndComplete(c: Setting, manifest: Manifest, visiting: seq<string>, log: seq<Entry>)
    requires Sound(c, manifest, visiting, log) && forall p :: p in c.graph ==> p in manifest
    ensures manifest.Keys == c.graph.Keys && Acyclic(c.graph) && Closed(c.graph)
    ensures forall p :: p in c.graph ==> c.io(p) == Works
  {
    assert manifest.Keys == c.graph.Keys;
    CompleteLogMeansAcyclic(c.graph, c.hash, log);
  }

  lemma ErrorsAreReal(c: Setting, r: Outcome)
    requires !r.Done? && Justified(c, r) && (r.NotInGraph? ==> exists a :: Edge(c.graph, a, r.path))
    ensures !(Acyclic(c.graph) && Closed(c.graph) && forall p :: p in c.graph ==> c.io(p) == Works)
  {
    match r
    case Circular(cycle) => assert IsCycle(c.graph, cycle);
    case NotInGraph(p) => var a :| Edge(c.graph, a, p);
    case IoError(p) =>
  }
}
