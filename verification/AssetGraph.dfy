/** The graph of hashable assets and the references between them. */
module AssetGraph {
  import opened Wrappers
  import opened Strings
  import opened Sorting

  /** An asset: its plain dependencies and the text of its source file. */
  datatype HashedAsset = HashedAsset(dependencies: seq<string>, content: string)

  type Graph = map<string, HashedAsset>

  function AssetRefPatterns(path: string): seq<string> {
    [
      "\"" + path + "\"",
      "'" + path + "'",
      "`" + path + "`",
      "url(" + path + ")",
      "url(\"" + path + "\")",
      "url('" + path + "')"
    ]
  }

  predicate ContainsAssetRef(content: string, path: string) {
    exists pattern | pattern in AssetRefPatterns(path) :: Contains(content, pattern)
  }

  predicate Edge(g: Graph, a: string, b: string) {
    a in g && b in g[a].dependencies
  }

  ghost predicate Closed(g: Graph) {
    forall a, b :: Edge(g, a, b) ==> b in g
  }

  ghost predicate IsPath(g: Graph, p: seq<string>) {
    forall i :: 0 <= i < |p| - 1 ==> Edge(g, p[i], p[i + 1])
  }

  ghost predicate IsCycle(g: Graph, c: seq<string>) {
    |c| >= 2 && IsPath(g, c) && c[0] == c[|c| - 1]
  }

  ghost predicate Acyclic(g: Graph) {
    forall c :: !IsCycle(g, c)
  }

  /** The raw occurrences of plain paths in a text are all recorded as dependencies. */
  ghost predicate MentionsOnlyDependencies(g: Graph) {
    forall a, p :: a in g && p in g && Contains(g[a].content, p) ==> p in g[a].dependencies
  }

  lemma LexOrder()
    ensures TotalOrder(LexLeq)
  {
    forall a, b
      ensures LexLeq(a, b) || LexLeq(b, a)
    {
      LexTotal(a, b);
    }
    forall a, b, c | LexLeq(a, b) && LexLeq(b, c)
      ensures LexLeq(a, c)
    {
      LexTransitive(a, b, c);
    }
  }

  function Referenced(content: string, paths: seq<string>): (r: seq<string>)
    ensures forall p :: p in r <==> p in paths && ContainsAssetRef(content, p)
  {
    if paths == [] then []
    else
      var rest := Referenced(content, paths[1..]);
      assert paths == [paths[0]] + paths[1..];
      if ContainsAssetRef(content, paths[0]) then [paths[0]] + rest else rest
  }

  lemma {:induction false} ReferencedSorted(content: string, paths: seq<string>)
    requires SortedBy(paths, LexLeq)
    ensures SortedBy(Referenced(content, paths), LexLeq)
  {
    if paths != [] {
      var rest := Referenced(content, paths[1..]);
      ReferencedSorted(content, paths[1..]);
      forall j | 0 <= j < |rest|
        ensures LexLeq(paths[0], rest[j])
      {
        assert rest[j] in paths[1..];
        var k :| 0 <= k < |paths[1..]| && paths[1..][k] == rest[j];
        assert LexLeq(paths[0], paths[k + 1]);
      }
    }
  }

  /** A file found by the directory walk and the outcome of reading it. */
  datatype Source = Source(path: string, content: Result<string>)

  ghost predicate DistinctPaths(sources: seq<Source>) {
    forall i, j :: 0 <= i < j < |sources| ==> sources[i].path != sources[j].path
  }

  predicate AllReadable(sources: seq<Source>) {
    forall i :: 0 <= i < |sources| ==> sources[i].content.Ok?
  }

  /** One node per source file. */
  ghost predicate NodesOf(g: Graph, sources: seq<Source>)
    requires AllReadable(sources)
  {
    && (forall i :: 0 <= i < |sources| ==> sources[i].path in g && g[sources[i].path].content == sources[i].content.value)
    && (forall p :: p in g ==> exists i :: 0 <= i < |sources| && sources[i].path == p)
  }

  lemma AddNode(g: Graph, sources: seq<Source>, source: Source, asset: HashedAsset)
    requires AllReadable(sources) && NodesOf(g, sources)
    requires source.content.Ok? && source.path !in g && asset.content == source.content.value
    ensures AllReadable(sources + [source]) && NodesOf(g[source.path := asset], sources + [source])
  {
    var all := sources + [source];
    assert all[|sources|] == source && forall i :: 0 <= i < |sources| ==> all[i] == sources[i];
    var g' := g[source.path := asset];
    forall p | p in g'
      ensures exists i :: 0 <= i < |all| && all[i].path == p
    {
      if p in g {
        var i :| 0 <= i < |sources| && sources[i].path == p;
        assert all[i].path == p;
      }
    }
  }

  lemma NotYetAdded(g: Graph, sources: seq<Source>, i: nat)
    requires DistinctPaths(sources) && i < |sources| && AllReadable(sources[..i]) && NodesOf(g, sources[..i])
    ensures sources[i].path !in g
  {
    assert forall k :: 0 <= k < i ==> sources[..i][k] == sources[k];
  }

  method CollectPlainPaths(sources: seq<Source>) returns (paths: seq<string>)
    ensures SortedBy(paths, LexLeq)
    ensures forall p :: p in paths <==> exists i :: 0 <= i < |sources| && sources[i].path == p
  {
    paths := [];
    for i := 0 to |sources|
      invariant forall p :: p in paths <==> exists k :: 0 <= k < i && sources[k].path == p
    {
      paths := paths + [sources[i].path];
    }
    ghost var unsorted := paths;
    LexOrder();
    SortSorted(paths, LexLeq);
    paths := Sort(paths, LexLeq);
    assert forall p :: p in paths <==> p in multiset(paths);
    assert forall p :: p in unsorted <==> p in multiset(unsorted);
  }

  lemma EmptyGraph()
    ensures NodesOf(map[], [])
  {
  }

  lemma NodesAreListed(g: Graph, sources: seq<Source>, paths: seq<string>)
    requires AllReadable(sources) && NodesOf(g, sources)
    requires forall p :: p in paths <==> exists i :: 0 <= i < |sources| && sources[i].path == p
    ensures forall p :: p in g <==> p in paths
  {
  }

  /** The text writes the path between quotes of one of three kinds, or in `url(...)` with or without quotes. */
  predicate Refers(content: string, path: string) {
    || Contains(content, "\"" + path + "\"") || Contains(content, "'" + path + "'") || Contains(content, "`" + path + "`")
    || Contains(content, "url(" + path + ")")
    || Contains(content, "url(\"" + path + "\")") || Contains(content, "url('" + path + "')")
  }

  lemma RefersIff(content: string, path: string)
    ensures ContainsAssetRef(content, path) <==> Refers(content, path)
  {
    hide Contains;
    var ps := AssetRefPatterns(path);
    assert forall p :: p in ps <==> p == ps[0] || p == ps[1] || p == ps[2] || p == ps[3] || p == ps[4] || p == ps[5];
  }

  /** The edges are exactly the delimited references between the assets. */
  ghost predicate EdgesAreReferences(g: Graph) {
    forall a, b :: Edge(g, a, b) <==> a in g && b in g && Refers(g[a].content, b)
  }

  lemma EdgesFromFilter(g: Graph)
    requires forall a, b :: Edge(g, a, b) <==> a in g && b in g && ContainsAssetRef(g[a].content, b)
    ensures EdgesAreReferences(g)
  {
    hide ContainsAssetRef, Refers, Edge;
    forall a, b
      ensures Edge(g, a, b) <==> a in g && b in g && Refers(g[a].content, b)
    {
      if a in g { RefersIff(g[a].content, b); }
    }
  }

  /**
   The graph of a set of source files, listed in any order: one node per file, an edge for every
   delimited reference to a hashable file (a file that refers to itself included), and no edge out
   of the graph. It fails exactly when the listing or a file cannot be read.
   */
  method BuildHashedAssetsGraph(listing: Result<seq<Source>>) returns (r: Result<Graph>)
    requires listing.Ok? ==> DistinctPaths(listing.value)
    ensures r.Ok? <==> listing.Ok? && AllReadable(listing.value)
    ensures r.Ok? ==>
      && NodesOf(r.value, listing.value) && EdgesAreReferences(r.value) && Closed(r.value)
      && forall a :: a in r.value ==> SortedBy(r.value[a].dependencies, LexLeq)
  {
    if listing.Err? {
      return Err(listing.error);
    }
    var sources := listing.value;
    hide ContainsAssetRef, SortedBy, NodesOf, DistinctPaths, Referenced;
    EmptyGraph();
    var plainPaths := CollectPlainPaths(sources);
    var g: Graph := map[];
    for i := 0 to |sources|
      invariant AllReadable(sources[..i]) && NodesOf(g, sources[..i])
      invariant forall a :: a in g ==> g[a].dependencies == Referenced(g[a].content, plainPaths)
      invariant forall a :: a in g ==> SortedBy(g[a].dependencies, LexLeq)
    {
      var path := sources[i].path;
      if sources[i].content.Err? {
        return Err(sources[i].content.error);
      }
      var content := sources[i].content.value;
      var asset := HashedAsset(Referenced(content, plainPaths), content);
      NotYetAdded(g, sources, i);
      AddNode(g, sources[..i], sources[i], asset);
      assert sources[..i + 1] == sources[..i] + [sources[i]];
      ReferencedSorted(content, plainPaths);
      g := g[path := asset];
    }
    assert sources[..|sources|] == sources;
    NodesAreListed(g, sources, plainPaths);
    EdgesFromFilter(g);
    r := Ok(g);
  }

  lemma OccursInside(content: string, i: nat, pre: string, path: string, post: string)
    requires OccursAt(content, pre + path + post, i)
    ensures Contains(content, path)
  {
    var pattern := pre + path + post;
    assert content[i..][..|pattern|] == pattern;
    assert content[i + |pre|..][..|path|] == pattern[|pre|..|pre| + |path|] == path;
    assert OccursAt(content, path, i + |pre|);
  }

  /** A recorded dependency is mentioned in the text. */
  lemma ReferenceIsMention(content: string, path: string)
    requires ContainsAssetRef(content, path)
    ensures Contains(content, path)
  {
    var patterns := AssetRefPatterns(path);
    var j :| 0 <= j < |patterns| && Contains(content, patterns[j]);
    var i: nat :| i <= |content| && OccursAt(content, patterns[j], i);
    var pre := ["\"", "'", "`", "url(", "url(\"", "url('"][j];
    var post := ["\"", "'", "`", ")", "\")", "')"][j];
    assert patterns[j] == pre + path + post;
    OccursInside(content, i, pre, path, post);
  }

  lemma {:induction false} RanksAlongPath(g: Graph, rank: map<string, nat>, p: seq<string>)
    requires |p| >= 2 && IsPath(g, p)
    requires forall a, b :: Edge(g, a, b) ==> a in rank && b in rank && rank[b] < rank[a]
    ensures p[0] in rank && p[|p| - 1] in rank && rank[p[|p| - 1]] < rank[p[0]]
  {
    assert Edge(g, p[0], p[1]);
    if |p| > 2 {
      RanksAlongPath(g, rank, p[1..]);
    }
  }

  lemma RankedIsAcyclic(g: Graph, rank: map<string, nat>)
    requires forall a, b :: Edge(g, a, b) ==> a in rank && b in rank && rank[b] < rank[a]
    ensures Acyclic(g)
  {
    forall c
      ensures !IsCycle(g, c)
    {
      if |c| >= 2 && IsPath(g, c) { RanksAlongPath(g, rank, c); }
    }
  }
}
