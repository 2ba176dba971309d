/** The whole build: from the source files to the manifest and the dist directory. */
module AssetBuild {
  import opened Wrappers
  import opened Strings
  import opened AssetRewrite
  import opened AssetNaming
  import opened AssetGraph
  import opened AssetWriter
  import opened AssetTheorems
  import opened AssetOrder

  /** `m` is the one solution of the naming equation. */
  ghost predicate IsTheSolution(g: Graph, hash: string -> Digest, m: Manifest) {
    Solves(g, hash, m) && forall m' :: Solves(g, hash, m') ==> m' == m
  }

  /** Every asset is in `dist` under its final name, with all its references replaced at once, and its plain copy is gone. */
  ghost predicate HoldsFinalTexts(g: Graph, m: Manifest, dist: map<string, string>) {
    forall p :: p in g ==> p in m && m[p] in dist && dist[m[p]] == SpecContent(g, m, p) && p !in dist
  }

  /** Every name shows the first eight digits of the hash of the text stored under it. */
  ghost predicate NamesCarryHashes(g: Graph, hash: string -> Digest, m: Manifest, dist: map<string, string>) {
    forall p :: p in g ==> p in m && m[p] in dist && CarriesDigits(p, m[p], hash(dist[m[p]])[..8])
  }

  lemma HashesOfLog(g: Graph, hash: string -> Digest, root: string, copied: map<string, string>, log: seq<Entry>)
    requires SafeNames(g, root) && CompleteLog(g, hash, log) && forall p :: p in g ==> !EndsInDot(p)
    ensures NamesCarryHashes(g, hash, LogManifest(log), LogDist(copied, log))
  {
    hide SafeNames, ValidLog, LogManifest, LogDist, EndsInDot, FinalName, CarriesDigits;
    DistHoldsEveryAsset(g, hash, root, copied, log);
    LogEntries(g, hash, log);
    var m, dist := LogManifest(log), LogDist(copied, log);
    forall p | p in g
      ensures p in m && m[p] in dist && CarriesDigits(p, m[p], hash(dist[m[p]])[..8])
    {
      var i := ManifestEntry(log, p);
      NameCarriesHash(hash, p, log[i].content);
    }
  }

  /** Later insertions do not change what an asset was rewritten with. */
  lemma EntryContent(g: Graph, hash: string -> Digest, root: string, log: seq<Entry>, i: nat)
    requires SafeNames(g, root) && MentionsOnlyDependencies(g) && ValidLog(g, hash, log) && i < |log|
    ensures log[i].path in g && log[i].content == SpecContent(g, LogManifest(log), log[i].path)
  {
    hide ValidLog, LogManifest, SafeNames, MentionsOnlyDependencies, Rewrite, FinalName, Substitute;
    var init, e := log[..i], log[i];
    PrefixIsValid(g, hash, log, i);
    EntryMeetsSpec(g, hash, root, init, e);
    LogsGrow(g, hash, init, log);
    assert Restrict(LogManifest(init), g[e.path].dependencies) == Restrict(LogManifest(log), g[e.path].dependencies);
  }

  lemma SolutionOfLog(g: Graph, hash: string -> Digest, root: string, log: seq<Entry>)
    requires SafeNames(g, root) && MentionsOnlyDependencies(g) && CompleteLog(g, hash, log)
    ensures IsTheSolution(g, hash, LogManifest(log))
  {
    hide SafeNames, MentionsOnlyDependencies, CompleteLog, Solves, LogManifest;
    CompleteLogSolves(g, hash, root, log);
    forall m' | Solves(g, hash, m')
      ensures m' == LogManifest(log)
    {
      SolutionIsUnique(g, hash, log, m', LogManifest(log));
    }
  }

  lemma DistOfLog(g: Graph, hash: string -> Digest, root: string, copied: map<string, string>, log: seq<Entry>)
    requires SafeNames(g, root) && MentionsOnlyDependencies(g) && CompleteLog(g, hash, log) && forall p :: p in g ==> !EndsInDot(p)
    ensures HoldsFinalTexts(g, LogManifest(log), LogDist(copied, log))
  {
    hide SafeNames, MentionsOnlyDependencies, ValidLog, LogManifest, LogDist, EndsInDot, SpecContent;
    DistHoldsEveryAsset(g, hash, root, copied, log);
    var m, dist := LogManifest(log), LogDist(copied, log);
    forall p | p in g
      ensures p in m && m[p] in dist && dist[m[p]] == SpecContent(g, m, p) && p !in dist
    {
      var i := ManifestEntry(log, p);
      EntryContent(g, hash, root, log, i);
    }
  }

  /**
   Builds the graph of the source files and finalises every asset, visiting them in any order. The walk
   succeeds exactly on an acyclic graph whose file operations all work. With safe names and recorded
   mentions the manifest is then the one solution of the naming equation, so it does not depend on the
   order, and the dist directory holds exactly the texts of that solution.
   */
  method BuildAssets(listing: Result<seq<Source>>, order: seq<string>, hash: string -> Digest, io: string -> Io, copied: map<string, string>)
    returns (graph: Result<Graph>, r: Outcome, manifest: Manifest, dist: map<string, string>)
    requires listing.Ok? ==> DistinctPaths(listing.value)
    requires listing.Ok? ==> forall i :: 0 <= i < |listing.value| ==> listing.value[i].path != "" && listing.value[i].path in copied
    requires listing.Ok? ==> forall p :: p in order <==> exists i :: 0 <= i < |listing.value| && listing.value[i].path == p
    ensures graph.Ok? <==> listing.Ok? && AllReadable(listing.value)
    ensures graph.Ok? ==>
      && NodesOf(graph.value, listing.value) && EdgesAreReferences(graph.value)
      && (r.Done? <==> Acyclic(graph.value) && forall p :: p in graph.value ==> io(p) == Works)
      && (r.Circular? ==> IsCycle(graph.value, r.cycle)) && !r.NotInGraph?
    ensures graph.Ok? && r.Done? ==> forall root ::
      SafeNames(graph.value, root) && (forall p :: p in graph.value ==> !EndsInDot(p)) ==> NamesCarryHashes(graph.value, hash, manifest, dist)
    ensures graph.Ok? && r.Done? ==> forall root :: SafeNames(graph.value, root) && MentionsOnlyDependencies(graph.value) ==>
      && IsTheSolution(graph.value, hash, manifest)
      && ((forall p :: p in graph.value ==> !EndsInDot(p)) ==> HoldsFinalTexts(graph.value, manifest, dist))
  {
    manifest, dist, r := map[], copied, IoError("");
    graph := BuildHashedAssetsGraph(listing);
    if graph.Err? {
      return;
    }
    var g := graph.value;
    hide EdgesAreReferences, SafeNames, MentionsOnlyDependencies, IsTheSolution, HoldsFinalTexts, NamesCarryHashes, Acyclic, ValidLog, LogManifest, LogDist;
    KeysAreListed(g, listing.value, order);
    var writer := new Writer(Setting(g, hash, io, copied), copied);
    r := writer.WriteHashedStaticAssets(order);
    manifest, dist := writer.manifest, writer.dist;
    if r.Done? {
      forall root | SafeNames(g, root) && forall p :: p in g ==> !EndsInDot(p)
        ensures NamesCarryHashes(g, hash, manifest, dist)
      {
        HashesOfLog(g, hash, root, copied, writer.log);
      }
      forall root | SafeNames(g, root) && MentionsOnlyDependencies(g)
        ensures IsTheSolution(g, hash, manifest)
        ensures (forall p :: p in g ==> !EndsInDot(p)) ==> HoldsFinalTexts(g, manifest, dist)
      {
        SolutionOfLog(g, hash, root, writer.log);
        if forall p :: p in g ==> !EndsInDot(p) { DistOfLog(g, hash, root, copied, writer.log); }
      }
    }
  }

  lemma KeysAreListed(g: Graph, sources: seq<Source>, order: seq<string>)
    requires AllReadable(sources) && NodesOf(g, sources)
    requires forall p :: p in order <==> exists i :: 0 <= i < |sources| && sources[i].path == p
    ensures forall p :: p in order <==> p in g
    ensures forall p :: p in g ==> exists i :: 0 <= i < |sources| && sources[i].path == p
  {
  }
}
