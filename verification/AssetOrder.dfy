/**
 When the visiting order can be seen in the result: the exact condition under which all complete walks
 write the same texts.
 */
module AssetOrder {
  import opened Strings
  import opened AssetRewrite
  import opened AssetNaming
  import opened AssetGraph
  import opened AssetWriter
  import opened AssetTheorems

  // ---- Reachability ---------------------------------------------------------------------------

  /** A dependency, a dependency of a dependency, and so on. */
  ghost predicate Reaches(g: Graph, a: string, b: string) {
    exists p: seq<string> :: |p| >= 2 && IsPath(g, p) && p[0] == a && p[|p| - 1] == b
  }

  lemma ReachEdge(g: Graph, a: string, b: string)
    requires Edge(g, a, b)
    ensures Reaches(g, a, b)
  {
    var p := [a, b];
    assert IsPath(g, p) && p[|p| - 1] == b;
  }

  lemma ReachCons(g: Graph, a: string, b: string, c: string)
    requires Edge(g, a, b) && Reaches(g, b, c)
    ensures Reaches(g, a, c)
  {
    var p: seq<string> :| |p| >= 2 && IsPath(g, p) && p[0] == b && p[|p| - 1] == c;
    var q := [a] + p;
    assert forall i :: 0 < i < |q| ==> q[i] == p[i - 1];
    assert IsPath(g, q) && q[|q| - 1] == c;
  }

  lemma NoSelfReach(g: Graph, a: string)
    requires Acyclic(g)
    ensures !Reaches(g, a, a)
  {
    if p: seq<string> :| |p| >= 2 && IsPath(g, p) && p[0] == a && p[|p| - 1] == a {
      assert IsCycle(g, p);
    }
  }

  ghost predicate ClosedSet(g: Graph, keys: set<string>) {
    forall a, b :: a in keys && Edge(g, a, b) ==> b in keys
  }

  lemma {:induction false} PathStays(g: Graph, keys: set<string>, p: seq<string>)
    requires ClosedSet(g, keys) && p != [] && IsPath(g, p) && p[0] in keys
    ensures p[|p| - 1] in keys
  {
    if |p| > 1 {
      assert Edge(g, p[0], p[1]);
      PathStays(g, keys, p[1..]);
    }
  }

  /** A set that is closed under dependencies and holds those of `a` holds all that `a` reaches. */
  lemma ReachStays(g: Graph, keys: set<string>, a: string, b: string)
    requires ClosedSet(g, keys) && Reaches(g, a, b) && forall d :: Edge(g, a, d) ==> d in keys
    ensures b in keys
  {
    var p: seq<string> :| |p| >= 2 && IsPath(g, p) && p[0] == a && p[|p| - 1] == b;
    assert Edge(g, p[0], p[1]);
    PathStays(g, keys, p[1..]);
  }

  /** All assets that `a` reaches. */
  ghost function Below(g: Graph, a: string): set<string> {
    set b | b in g && Reaches(g, a, b)
  }

  /** All assets that may be final before `a`: not `a` itself and none that reaches it. */
  ghost function Others(g: Graph, a: string): set<string> {
    set b | b in g && b != a && !Reaches(g, b, a)
  }

  // ---- What is final when an asset is finalised ------------------------------------------------

  lemma LogIsClosed(g: Graph, hash: string -> Digest, log: seq<Entry>)
    requires ValidLog(g, hash, log)
    ensures LogManifest(log).Keys <= g.Keys && ClosedSet(g, LogManifest(log).Keys)
  {
    hide ValidLog, LogManifest;
    LogIsTopological(g, hash, log);
  }

  /** Everything below an asset is final before it; the asset and whatever reaches it is not. */
  lemma Available(g: Graph, hash: string -> Digest, log: seq<Entry>, e: Entry)
    requires ValidLog(g, hash, log) && EntryOk(g, hash, log, e)
    ensures Below(g, e.path) <= LogManifest(log).Keys <= Others(g, e.path)
  {
    hide ValidLog, LogManifest, Reaches, Rewrite, FinalName;
    var keys, a := LogManifest(log).Keys, e.path;
    LogIsClosed(g, hash, log);
    forall b | b in Below(g, a)
      ensures b in keys
    {
      ReachStays(g, keys, a, b);
    }
    forall b | b in keys
      ensures b in Others(g, a)
    {
      if Reaches(g, b, a) { ReachStays(g, keys, b, a); }
    }
  }

  lemma {:induction false} PrefixIsValid(g: Graph, hash: string -> Digest, log: seq<Entry>, j: nat)
    requires ValidLog(g, hash, log) && j < |log|
    ensures ValidLog(g, hash, log[..j]) && EntryOk(g, hash, log[..j], log[j])
  {
    hide EntryOk;
    var init := log[..|log| - 1];
    if j < |log| - 1 {
      PrefixIsValid(g, hash, init, j);
      assert init[..j] == log[..j];
    }
  }

  /** Every name in the manifest was put there by an entry. */
  lemma {:induction false} ManifestEntry(log: seq<Entry>, k: string) returns (i: nat)
    requires k in LogManifest(log)
    ensures i < |log| && log[i].path == k && log[i].name == LogManifest(log)[k]
  {
    var init, e := log[..|log| - 1], log[|log| - 1];
    if e.path == k {
      i := |log| - 1;
    } else {
      i := ManifestEntry(init, k);
    }
  }

  // ---- The condition ----------------------------------------------------------------------------

  /** The paths of a set as a manifest, so that the longest of them at a position can be asked for. */
  function Plain(paths: set<string>): Manifest {
    map p | p in paths :: p
  }

  /** The longest path at the start of `s` that may be final before `a` is one that `a` reaches. */
  ghost predicate WinnerBelow(g: Graph, a: string, s: string) {
    var n := LongestKey(s, Plain(Others(g, a)), |s|);
    n > 0 ==> s[..n] in Below(g, a)
  }

  ghost predicate WinnersBelow(g: Graph) {
    forall a: string, i: nat :: a in g && i <= |g[a].content| ==> WinnerBelow(g, a, g[a].content[i..])
  }

  ghost predicate SameTexts(log: seq<Entry>, log': seq<Entry>) {
    forall i, j :: 0 <= i < |log| && 0 <= j < |log'| && log[i].path == log'[j].path ==> log[i].content == log'[j].content
  }

  ghost predicate OrderIndependent(g: Graph, hash: string -> Digest) {
    forall log, log' :: CompleteLog(g, hash, log) && CompleteLog(g, hash, log') ==> SameTexts(log, log')
  }

  /** If every mention is a recorded dependency, the condition holds. */
  lemma {:induction false} RecordedMentionsSuffice(g: Graph)
    requires MentionsOnlyDependencies(g)
    ensures WinnersBelow(g)
  {
    forall a: string, i: nat | a in g && i <= |g[a].content|
      ensures WinnerBelow(g, a, g[a].content[i..])
    {
      var s := g[a].content[i..];
      var n := LongestKey(s, Plain(Others(g, a)), |s|);
      if n > 0 {
        assert OccursAt(g[a].content, s[..n], i);
        ReachEdge(g, a, s[..n]);
      }
    }
  }

  // ---- The condition suffices -----------------------------------------------------------------------

  function RestrictTo(m: Manifest, keys: set<string>): Manifest {
    map k | k in m && k in keys :: m[k]
  }

  ghost predicate SameWinners(s: string, m: Manifest, m': Manifest) {
    forall i: nat :: i <= |s| ==> LongestKey(s[i..], m, |s| - i) == LongestKey(s[i..], m', |s| - i)
  }

  lemma SameWinnersTail(s: string, m: Manifest, m': Manifest, n: nat)
    requires SameWinners(s, m, m') && n <= |s|
    ensures SameWinners(s[n..], m, m')
  {
    forall i: nat | i <= |s[n..]|
      ensures LongestKey(s[n..][i..], m, |s[n..]| - i) == LongestKey(s[n..][i..], m', |s[n..]| - i)
    {
      assert s[n..][i..] == s[n + i..];
    }
  }

  lemma {:induction false} SameWinnersSameText(s: string, m: Manifest, m': Manifest)
    requires SameWinners(s, m, m') && forall k :: k in m && k in m' ==> m[k] == m'[k]
    ensures Substitute(s, m) == Substitute(s, m')
  {
    hide SameWinners;
    if s != "" {
      assert LongestKey(s, m, |s|) == LongestKey(s, m', |s|) by {
        HeadWinner(s, m, m');
      }
      var n := LongestKey(s, m, |s|);
      var step := if n > 0 then n else 1;
      SameWinnersTail(s, m, m', step);
      SameWinnersSameText(s[step..], m, m');
    }
  }

  lemma HeadWinner(s: string, m: Manifest, m': Manifest)
    requires SameWinners(s, m, m')
    ensures LongestKey(s, m, |s|) == LongestKey(s, m', |s|)
  {
    assert s[0..] == s;
    assert LongestKey(s[0..], m, |s| - 0) == LongestKey(s[0..], m', |s| - 0);
  }

  lemma BelowDecides(g: Graph, a: string, s: string, m: Manifest)
    requires Below(g, a) <= m.Keys <= Others(g, a) && WinnerBelow(g, a, s)
    ensures LongestKey(s, m, |s|) == LongestKey(s, RestrictTo(m, Below(g, a)), |s|)
  {
    hide Reaches;
    var n := LongestKey(s, Plain(Others(g, a)), |s|);
    var small := RestrictTo(m, Below(g, a));
    assert forall j :: n < j <= |s| ==> s[..j] !in Plain(Others(g, a));
    assert forall j :: n < j <= |s| ==> s[..j] !in m && s[..j] !in small;
    assert n > 0 ==> s[..n] in m && s[..n] in small;
  }

  /** The text of an entry depends only on the names of the assets below it. */
  lemma EntryText(g: Graph, hash: string -> Digest, root: string, log: seq<Entry>, e: Entry)
    requires SafeNames(g, root) && WinnersBelow(g) && ValidLog(g, hash, log) && EntryOk(g, hash, log, e)
    ensures e.content == Substitute(g[e.path].content, RestrictTo(LogManifest(log), Below(g, e.path)))
  {
    hide ValidLog, LogManifest, FinalName, SafeNames, Substitute, Rewrite, LongestKey, Below, Others;
    var m, a, s := LogManifest(log), e.path, g[e.path].content;
    var small := RestrictTo(m, Below(g, a));
    LogNamesAreHashed(g, hash, log);
    SafeNamesAreClean(g, root, m);
    SequentialIsSimultaneous(s, m);
    Available(g, hash, log, e);
    forall i: nat | i <= |s|
      ensures LongestKey(s[i..], m, |s| - i) == LongestKey(s[i..], small, |s| - i)
    {
      assert WinnerBelow(g, a, s[i..]);
      BelowDecides(g, a, s[i..], m);
    }
    SameWinnersSameText(s, m, small);
  }

  /** Two logs whose earlier entries agree give the same names below an asset. */
  lemma SameNamesBelow(g: Graph, hash: string -> Digest, log: seq<Entry>, log': seq<Entry>, keys: set<string>)
    requires ValidLog(g, hash, log) && ValidLog(g, hash, log') && SameTexts(log, log')
    requires keys <= LogManifest(log).Keys && keys <= LogManifest(log').Keys
    ensures RestrictTo(LogManifest(log), keys) == RestrictTo(LogManifest(log'), keys)
  {
    hide ValidLog, LogManifest, FinalName;
    LogEntries(g, hash, log);
    LogEntries(g, hash, log');
    forall k | k in keys
      ensures LogManifest(log)[k] == LogManifest(log')[k]
    {
      var i := ManifestEntry(log, k);
      var j := ManifestEntry(log', k);
    }
  }

  lemma LastTextAgrees(g: Graph, hash: string -> Digest, root: string, log: seq<Entry>, log': seq<Entry>, j: nat)
    requires SafeNames(g, root) && WinnersBelow(g) && ValidLog(g, hash, log) && ValidLog(g, hash, log') && log != []
    requires SameTexts(log[..|log| - 1], log') && j < |log'| && log'[j].path == log[|log| - 1].path
    ensures log'[j].content == log[|log| - 1].content
  {
    hide ValidLog, SafeNames, WinnersBelow, LogManifest, EntryOk, Substitute, Below, FinalName;
    var init, e := log[..|log| - 1], log[|log| - 1];
    var init', e' := log'[..j], log'[j];
    PrefixIsValid(g, hash, log, |log| - 1);
    PrefixIsValid(g, hash, log', j);
    EntryText(g, hash, root, init, e);
    EntryText(g, hash, root, init', e');
    Available(g, hash, init, e);
    Available(g, hash, init', e');
    assert SameTexts(init, init');
    SameNamesBelow(g, hash, init, init', Below(g, e.path));
  }

  lemma {:induction false} TextsAgree(g: Graph, hash: string -> Digest, root: string, log: seq<Entry>, log': seq<Entry>)
    requires SafeNames(g, root) && WinnersBelow(g) && ValidLog(g, hash, log) && ValidLog(g, hash, log')
    ensures SameTexts(log, log')
  {
    hide SafeNames, WinnersBelow, EntryOk;
    if log != [] {
      var init := log[..|log| - 1];
      TextsAgree(g, hash, root, init, log');
      forall i, j | 0 <= i < |log| && 0 <= j < |log'| && log[i].path == log'[j].path
        ensures log[i].content == log'[j].content
      {
        if i < |init| {
          assert log[i] == init[i];
        } else {
          LastTextAgrees(g, hash, root, log, log', j);
        }
      }
    }
  }

  // ---- Building logs --------------------------------------------------------------------------------

  ghost predicate Walkable(g: Graph) {
    Closed(g) && Acyclic(g) && "" !in g
  }

  lemma {:induction false} LogsGrow(g: Graph, hash: string -> Digest, log: seq<Entry>, log': seq<Entry>)
    requires ValidLog(g, hash, log') && log <= log'
    ensures ValidLog(g, hash, log)
    ensures forall k :: k in LogManifest(log) ==> k in LogManifest(log') && LogManifest(log')[k] == LogManifest(log)[k]
  {
    hide ValidLog, EntryOk, LogManifest, FinalName;
    if log == log' {
    } else {
      LastEntry(g, hash, log');
      LogsGrow(g, hash, log, log'[..|log'| - 1]);
    }
  }

  function EntryFor(g: Graph, hash: string -> Digest, p: string, content: string): Entry {
    Entry(p, content, FinalName(hash, p, content))
  }

  /** An asset whose dependencies are final can be finalised next. */
  lemma Append(g: Graph, hash: string -> Digest, log: seq<Entry>, p: string) returns (e: Entry)
    requires ValidLog(g, hash, log) && "" !in g && p in g && p !in LogManifest(log)
    requires forall d :: d in g[p].dependencies ==> d in LogManifest(log)
    ensures e.path == p && EntryOk(g, hash, log, e) && ValidLog(g, hash, log + [e])
    ensures LogManifest(log + [e]) == LogManifest(log)[p := e.name]
    ensures "" !in LogManifest(log) && e.content == Rewrite(g[p].content, LogManifest(log))
  {
    hide ValidLog, LogManifest, Rewrite, FinalName;
    LogIsClosed(g, hash, log);
    e := EntryFor(g, hash, p, Rewrite(g[p].content, LogManifest(log)));
    ExtendLog(g, hash, map[], log, e);
  }

  /** What the walk from `p` may add to the manifest. */
  ghost predicate AddsOnly(log: seq<Entry>, log': seq<Entry>, keys: set<string>) {
    log <= log' && forall k :: k in LogManifest(log') ==> k in LogManifest(log) || k in keys
  }

  ghost predicate IsStack(g: Graph, stack: seq<string>, p: string) {
    NoDuplicates(stack) && IsPath(g, stack + [p]) && forall q :: q in stack ==> q in g
  }

  lemma NotOnStack(g: Graph, stack: seq<string>, p: string)
    requires Acyclic(g) && IsStack(g, stack, p)
    ensures p !in stack
  {
    if k :| 0 <= k < |stack| && stack[k] == p {
      var all := stack + [p];
      assert forall i :: 0 <= i < |stack| ==> all[i] == stack[i];
      assert IsPath(g, stack) && Edge(g, all[|stack| - 1], all[|stack|]);
      CycleFound(g, stack, k, p);
    }
  }

  lemma PushStack(g: Graph, stack: seq<string>, p: string, d: string)
    requires IsStack(g, stack, p) && p in g && p !in stack && Edge(g, p, d)
    ensures IsStack(g, stack + [p], d)
    ensures g.Keys - (set q | q in stack + [p]) < g.Keys - (set q | q in stack)
  {
    var all := stack + [p] + [d];
    assert forall i :: 0 <= i <= |stack| ==> all[i] == (stack + [p])[i];
    assert p in g.Keys - (set q | q in stack) && p in stack + [p];
  }

  /** Finalises `p`, adding only what `p` needs. */
  lemma {:induction false} Visit(g: Graph, hash: string -> Digest, log: seq<Entry>, stack: seq<string>, p: string) returns (log': seq<Entry>)
    requires Walkable(g) && ValidLog(g, hash, log) && p in g && IsStack(g, stack, p)
    ensures ValidLog(g, hash, log') && AddsOnly(log, log', Below(g, p) + {p}) && p in LogManifest(log')
    decreases g.Keys - (set q | q in stack), 1
  {
    hide ValidLog, LogManifest, EntryOk, FinalName, Rewrite, Reaches;
    if p in LogManifest(log) {
      log' := log;
    } else {
      NotOnStack(g, stack, p);
      log' := VisitDependencies(g, hash, log, stack, p);
      NoSelfReach(g, p);
      var e := Append(g, hash, log', p);
      log' := log' + [e];
    }
  }

  /** Finalises everything below `p` and nothing else. */
  lemma {:induction false} VisitDependencies(g: Graph, hash: string -> Digest, log: seq<Entry>, stack: seq<string>, p: string) returns (log': seq<Entry>)
    requires Walkable(g) && ValidLog(g, hash, log) && p in g && IsStack(g, stack, p) && p !in stack
    ensures ValidLog(g, hash, log') && AddsOnly(log, log', Below(g, p))
    ensures forall d :: d in g[p].dependencies ==> d in LogManifest(log')
    decreases g.Keys - (set q | q in stack), 0
  {
    hide ValidLog, LogManifest, Reaches, Acyclic, IsStack;
    var dependencies := g[p].dependencies;
    log' := log;
    for i := 0 to |dependencies|
      invariant ValidLog(g, hash, log') && AddsOnly(log, log', Below(g, p))
      invariant forall k :: 0 <= k < i ==> dependencies[k] in LogManifest(log')
    {
      var d, before := dependencies[i], log';
      assert Edge(g, p, d);
      PushStack(g, stack, p, d);
      log' := Visit(g, hash, before, stack + [p], d);
      LogsGrow(g, hash, before, log');
      BelowGrows(g, p, d);
    }
  }

  lemma BelowGrows(g: Graph, p: string, d: string)
    requires Edge(g, p, d) && d in g
    ensures Below(g, d) + {d} <= Below(g, p)
  {
    hide Reaches;
    ReachEdge(g, p, d);
    forall b | b in Below(g, d)
      ensures b in Below(g, p)
    {
      ReachCons(g, p, d, b);
    }
  }

  /** Every valid log can be completed. */
  lemma {:induction false} Complete(g: Graph, hash: string -> Digest, log: seq<Entry>) returns (log': seq<Entry>)
    requires Walkable(g) && ValidLog(g, hash, log)
    ensures CompleteLog(g, hash, log') && log <= log'
  {
    hide ValidLog, LogManifest, Reaches, Acyclic, Closed;
    log' := log;
    var rest := g.Keys;
    while rest != {}
      invariant ValidLog(g, hash, log') && log <= log' && rest <= g.Keys
      invariant forall k :: k in g && k !in rest ==> k in LogManifest(log')
      decreases |rest|
    {
      var k :| k in rest;
      var before := log';
      assert IsStack(g, [], k);
      log' := Visit(g, hash, before, [], k);
      LogsGrow(g, hash, before, log');
      rest := rest - {k};
    }
    LogIsClosed(g, hash, log');
    assert LogManifest(log').Keys == g.Keys;
  }

  // ---- More final names change the text ---------------------------------------------------------------

  /** `m` knows some of the paths of `m'`, which overlap only at a common start. */
  ghost predicate Apart(m: Manifest, m': Manifest) {
    && "" !in m' && m.Keys <= m'.Keys
    && (forall p, q, k: nat :: p in m' && q in m' && 0 < k < |p| ==> !Comparable(p[k..], q))
  }

  /** Names of which `m` knows some and `m'` more. */
  ghost predicate Refines(m: Manifest, m': Manifest) {
    && Apart(m, m') && (forall k :: k in m ==> m[k] == m'[k])
    && (forall p :: p in m' ==> |p| < |m'[p]|)
    && (forall q, p :: q in m && p in m' && q < p ==> Outgrows(q, m[q], p, m'[p]))
  }

  /** Replacing only the beginning `q` of `p` gives no longer a text than replacing `p`, and a different one. */
  predicate Outgrows(q: string, hq: string, p: string, hp: string)
    requires q <= p
  {
    |hq + p[|q|..]| <= |hp| && hq + p[|q|..] != hp
  }

  /** Strictly inside an occurrence of a path no path starts. */
  lemma NoKeyWithin(s: string, m: Manifest, m': Manifest, n: nat, k: nat)
    requires Apart(m, m') && n <= |s| && s[..n] in m' && 0 < k < n
    ensures NoKeyAt(s[k..], m) && NoKeyAt(s[k..], m')
  {
    var p, t := s[..n], s[k..];
    forall j | 0 < j <= |t|
      ensures t[..j] !in m'
    {
      assert p[k..] == t[..n - k];
      assert Comparable(p[k..], t[..j]) by {
        if j <= n - k { assert t[..j] == t[..n - k][..j]; } else { assert t[..n - k] == t[..j][..n - k]; }
      }
    }
  }

  /** What `m` makes of an occurrence of a path that `m'` knows. */
  function Partly(p: string, n: nat, m: Manifest): string
    requires n <= |p| && (n > 0 ==> p[..n] in m)
  {
    if n > 0 then m[p[..n]] + p[n..] else p
  }

  lemma CopyRest(s: string, m: Manifest, m': Manifest, n: nat, n': nat)
    requires Apart(m, m') && n <= n' <= |s| && n' > 0 && s[..n'] in m' && (n == 0 ==> NoKeyAt(s, m))
    ensures Substitute(s[n..], m) == s[n..n'] + Substitute(s[n'..], m)
  {
    hide Apart, Substitute, LongestKey;
    var x, t := s[n..n'], s[n'..];
    forall k: nat | k < |x|
      ensures NoKeyAt(x[k..] + t, m)
    {
      assert x[k..] + t == s[n + k..];
      if n + k > 0 { NoKeyWithin(s, m, m', n', n + k); } else { assert s[0..] == s; }
    }
    CopyUnkeyed(x, t, m);
    assert x + t == s[n..];
  }

  lemma WinnersGrow(s: string, m: Manifest, m': Manifest)
    requires m.Keys <= m'.Keys
    ensures LongestKey(s, m, |s|) <= LongestKey(s, m', |s|)
  {
    var n := LongestKey(s, m, |s|);
    assert n > 0 ==> s[..n] in m';
  }

  lemma PrefixParts(s: string, n: nat, n': nat)
    requires n <= n' <= |s|
    ensures s[..n'][..n] == s[..n] && s[..n'][n..] == s[n..n'] && s[0..] == s
  {
  }

  lemma KeyThenRest(s: string, m: Manifest, n': nat, rest: string)
    requires !NoKeyAt(s, m) && LongestKey(s, m, |s|) <= n' <= |s|
    requires Substitute(s[LongestKey(s, m, |s|)..], m) == s[LongestKey(s, m, |s|)..n'] + rest
    requires s[..n'][..LongestKey(s, m, |s|)] == s[..LongestKey(s, m, |s|)]
    ensures Substitute(s, m) == Partly(s[..n'], LongestKey(s, m, |s|), m) + rest
  {
    hide LongestKey;
    var n := LongestKey(s, m, |s|);
    PrefixParts(s, n, n');
    assert Substitute(s, m) == m[s[..n]] + Substitute(s[n..], m);
    assert m[s[..n]] + (s[n..n'] + rest) == m[s[..n]] + s[n..n'] + rest;
  }

  lemma PartlyReplaced(s: string, m: Manifest, m': Manifest)
    requires Refines(m, m') && s != "" && !NoKeyAt(s, m')
    ensures var n, n' := LongestKey(s, m, |s|), LongestKey(s, m', |s|);
            && n <= n' && (n > 0 ==> s[..n] in m && s[..n'][..n] == s[..n])
            && Substitute(s, m) == Partly(s[..n'], n, m) + Substitute(s[n'..], m)
  {
    hide LongestKey, Substitute, Apart;
    var n, n' := LongestKey(s, m, |s|), LongestKey(s, m', |s|);
    WinnersGrowApart(s, m, m');
    PrefixParts(s, n, n');
    CopyRest(s, m, m', n, n');
    if n > 0 { KeyThenRest(s, m, n', Substitute(s[n'..], m)); }
  }

  lemma WinnersGrowApart(s: string, m: Manifest, m': Manifest)
    requires Apart(m, m')
    ensures LongestKey(s, m, |s|) <= LongestKey(s, m', |s|)
  {
    hide LongestKey;
    WinnersGrow(s, m, m');
  }

  lemma PartlyIsShorter(s: string, m: Manifest, m': Manifest)
    requires Refines(m, m') && s != "" && !NoKeyAt(s, m')
    requires var n, n' := LongestKey(s, m, |s|), LongestKey(s, m', |s|); n <= n' && (n > 0 ==> s[..n'][..n] in m)
    ensures var n, n' := LongestKey(s, m, |s|), LongestKey(s, m', |s|);
            var x, h := Partly(s[..n'], n, m), m'[s[..n']];
            |x| <= |h| && (x == h <==> n == n')
  {
    hide LongestKey;
    var n, n' := LongestKey(s, m, |s|), LongestKey(s, m', |s|);
    var p := s[..n'];
    if n == n' {
      assert p[..n] == p && p[n..] == "";
    } else if n > 0 {
      assert p[..n] < p && p[..n] in m;
      assert Outgrows(p[..n], m[p[..n]], p, m'[p]);
    }
  }

  lemma SplitEqual(x: string, a: string, y: string, b: string)
    requires |x| <= |y| && |a| <= |b| && x + a == y + b
    ensures x == y && a == b
  {
    assert |x + a| == |x| + |a| && |y + b| == |y| + |b|;
    assert x == (x + a)[..|x|] && y == (y + b)[..|y|];
    assert a == (x + a)[|x|..] && b == (y + b)[|y|..];
  }

  /** The position just after a step of the scan: where the winners of a text are compared further. */
  lemma WinnersFromStep(s: string, m: Manifest, m': Manifest, step: nat)
    requires 0 < step <= |s| && SameWinners(s[step..], m, m')
    requires forall k: nat :: k < step ==> LongestKey(s[k..], m, |s| - k) == LongestKey(s[k..], m', |s| - k)
    ensures SameWinners(s, m, m')
  {
    hide LongestKey;
    var t := s[step..];
    forall i: nat | i <= |s|
      ensures LongestKey(s[i..], m, |s| - i) == LongestKey(s[i..], m', |s| - i)
    {
      if i >= step {
        assert s[i..] == t[i - step..];
        assert LongestKey(t[i - step..], m, |t| - (i - step)) == LongestKey(t[i - step..], m', |t| - (i - step));
      }
    }
  }

  lemma WinnersFromKey(s: string, m: Manifest, m': Manifest, n: nat)
    requires Refines(m, m') && 0 < n <= |s| && s[..n] in m' && LongestKey(s, m, |s|) == LongestKey(s, m', |s|)
    requires SameWinners(s[n..], m, m')
    ensures SameWinners(s, m, m')
  {
    hide LongestKey, Apart, SameWinners;
    forall k: nat | k < n
      ensures LongestKey(s[k..], m, |s| - k) == LongestKey(s[k..], m', |s| - k)
    {
      if k == 0 { assert s[0..] == s; } else { NoKeyWithin(s, m, m', n, k); }
    }
    WinnersFromStep(s, m, m', n);
  }

  /** Knowing more names never shortens a text, and leaves it as it is only if the same paths win everywhere. */
  lemma {:induction false} SameTextSameWinners(s: string, m: Manifest, m': Manifest)
    requires Refines(m, m')
    ensures |Substitute(s, m)| <= |Substitute(s, m')|
    ensures Substitute(s, m) == Substitute(s, m') ==> SameWinners(s, m, m')
  {
    hide Refines, SameWinners, LongestKey, Partly;
    if s == "" {
      NoWinners(m, m');
    } else if NoKeyAt(s, m') {
      NoKeyInLess(s, m, m');
      SameTextSameWinners(s[1..], m, m');
      if Substitute(s, m) == Substitute(s, m') {
        SplitEqual([s[0]], Substitute(s[1..], m), [s[0]], Substitute(s[1..], m'));
        assert s[0..] == s;
        WinnersFromStep(s, m, m', 1);
      }
    } else {
      var n' := LongestKey(s, m', |s|);
      PartlyReplaced(s, m, m');
      PartlyIsShorter(s, m, m');
      SameTextSameWinners(s[n'..], m, m');
      var x := Partly(s[..n'], LongestKey(s, m, |s|), m);
      if Substitute(s, m) == Substitute(s, m') {
        SplitEqual(x, Substitute(s[n'..], m), m'[s[..n']], Substitute(s[n'..], m'));
        WinnersFromKey(s, m, m', n');
      }
    }
  }

  lemma NoWinners(m: Manifest, m': Manifest)
    ensures SameWinners("", m, m')
  {
  }

  lemma NoKeyInLess(s: string, m: Manifest, m': Manifest)
    requires Refines(m, m') && NoKeyAt(s, m')
    ensures NoKeyAt(s, m)
  {
    assert forall j :: 0 < j <= |s| ==> s[..j] !in m';
    assert forall j :: 0 < j <= |s| ==> s[..j] !in m;
  }

  // ---- Two paths of which one begins with the other ---------------------------------------------------

  lemma HashedParts(d: string, stem: string, e: string, tag: string)
    requires '/' !in stem && '/' !in e && '.' !in e && e != "" && stem != ""
    ensures HashedStaticAssetPath(d + "/" + Dotted(stem, e), tag) == d + "/" + stem + "." + tag + "." + e
  {
    hide HashedStaticAssetPath, HashedFileName;
    DottedNoSlash(stem, e);
    HashedAt(d, Dotted(stem, e), tag);
    StemOfDotted(stem, e);
    HashedForm(Dotted(stem, e), tag);
    assert d + "/" + (stem + "." + tag + "." + e) == d + "/" + stem + "." + tag + "." + e;
  }

  /** A path that is no prefix of a hashed path of `p`, but one of `p`, ends inside the extension of `p`. */
  lemma TwinParts(q: string, p: string, tag: string) returns (d: string, stem: string, e: string, rest: string)
    requires IsFilePath(p) && q < p && !(q <= HashedStaticAssetPath(p, tag))
    ensures '/' !in stem && stem != "" && e != "" && '/' !in e + rest && '.' !in e + rest
    ensures q == d + "/" + Dotted(stem, e) && p == d + "/" + Dotted(stem, e + rest)
  {
    hide AfterLast, HashedStaticAssetPath, Stem, Extension, BeforeTag;
    var f := FileOf(p);
    d, stem := p[..AfterLast(p, '/') - 1], Stem(f);
    var b, ext := BeforeTag(p), Extension(f);
    NoSlashInFile(p);
    PartsOfName(f);
    BeforeTagOf(p);
    NotBeforeTag(q, p, tag);
    CutAfter(q, b, ext);
    e, rest := ext[..|q| - |b|], ext[|q| - |b|..];
    JoinParts(d, stem, e);
    JoinParts(d, stem, ext);
  }

  lemma PartsOfName(f: string)
    requires '/' !in f
    ensures '/' !in Stem(f) && '/' !in Extension(f) && '.' !in Extension(f)
  {
    hide AfterLast;
    SplitName(f);
    assert forall c :: c in Stem(f) ==> c in f;
    assert forall c :: c in Extension(f) ==> c in f;
  }

  lemma CutAfter(q: string, b: string, ext: string)
    requires q <= b + ext && |b| <= |q|
    ensures var n := |q| - |b|; q == b + ext[..n] && ext[..n] + ext[n..] == ext
  {
    assert q == (b + ext)[..|q|];
  }

  lemma JoinParts(d: string, stem: string, e: string)
    ensures d + "/" + Dotted(stem, e) == d + "/" + stem + "." + e
  {
  }

  lemma BeforeTagOf(p: string)
    requires IsFilePath(p)
    ensures BeforeTag(p) == p[..AfterLast(p, '/') - 1] + "/" + Stem(FileOf(p)) + "."
    ensures Extension(FileOf(p)) == "" ==> p <= BeforeTag(p)
    ensures Extension(FileOf(p)) != "" ==> p == BeforeTag(p) + Extension(FileOf(p)) && Stem(FileOf(p)) != ""
  {
    hide AfterLast;
    var i, f := AfterLast(p, '/'), FileOf(p);
    SplitName(f);
    assert p == p[..i] + f && p[..i] == p[..i - 1] + "/";
    if Extension(f) == "" {
      assert BeforeTag(p) == p[..i] + (Stem(f) + ".");
      assert p == BeforeTag(p)[..|p|];
    }
  }

  lemma NotBeforeTag(q: string, p: string, tag: string)
    requires IsFilePath(p) && q < p && !(q <= HashedStaticAssetPath(p, tag))
    ensures Extension(FileOf(p)) != "" && |BeforeTag(p)| < |q|
  {
    hide AfterLast, HashedStaticAssetPath, BeforeTag;
    BeforeTagOf(p);
    BeforeTagIsPrefix(p, tag);
    var b, h := BeforeTag(p), HashedStaticAssetPath(p, tag);
    PrefixChain(q, b, h);
    PrefixChain(q, p, b);
    ShorterPrefix(q, b, p);
  }

  lemma PrefixChain(x: string, y: string, z: string)
    ensures x <= y && y <= z ==> x <= z
  {
    assert x <= y && y <= z ==> x == y[..|x|] == z[..|x|];
  }

  lemma ShorterPrefix(x: string, y: string, z: string)
    ensures x <= z && y <= z && |x| <= |y| ==> x <= y
  {
    assert x <= z && y <= z && |x| <= |y| ==> x == z[..|x|] == y[..|x|];
  }

  /** Such twins differ only in the extension, so rewriting just the shorter one shows exactly in the tag. */
  lemma TwinsOutgrow(q: string, p: string, s: string, t: string)
    requires IsFilePath(p) && q < p && !(q <= HashedStaticAssetPath(p, t)) && IsTag(s) && IsTag(t) && s != t
    ensures Outgrows(q, HashedStaticAssetPath(q, s), p, HashedStaticAssetPath(p, t))
  {
    hide HashedStaticAssetPath;
    var d, stem, e, rest := TwinParts(q, p, t);
    HashedParts(d, stem, e, s);
    HashedParts(d, stem, e + rest, t);
    var b := d + "/" + stem + ".";
    assert p[|q|..] == rest;
    var x, y := HashedStaticAssetPath(q, s) + rest, HashedStaticAssetPath(p, t);
    assert x == b + s + ("." + e + rest) && y == b + t + ("." + (e + rest));
    assert x[|b|..|b| + 8] == s && y[|b|..|b| + 8] == t;
  }

  // ---- The condition is needed --------------------------------------------------------------------------

  /** Assets of which one path begins with the other never get the same eight digits. */
  ghost predicate Distinguished(g: Graph, hash: string -> Digest) {
    forall log: seq<Entry>, i: nat, j: nat :: CompleteLog(g, hash, log) && i < |log| && j < |log| && log[i].path < log[j].path ==>
      Tag(hash, log[i].content) != Tag(hash, log[j].content)
  }

  lemma NamesApart(g: Graph, root: string, p: string, q: string, k: nat)
    requires SafeNames(g, root) && p in g && q in g && 0 < k < |p|
    ensures !Comparable(p[k..], q)
  {
    if Comparable(p[k..], q) { ComparableThroughPrefix(p[k..], q, root); }
  }

  /** Along a complete log, the names known earlier are refined by those known later. */
  lemma LogsRefine(g: Graph, hash: string -> Digest, root: string, log: seq<Entry>, log': seq<Entry>, whole: seq<Entry>)
    requires SafeNames(g, root) && Distinguished(g, hash) && CompleteLog(g, hash, whole)
    requires log <= log' <= whole
    ensures Refines(LogManifest(log), LogManifest(log'))
  {
    hide ValidLog, LogManifest, HashedStaticAssetPath, Tag, Outgrows, IsTag, Rooted, IsRoot;
    LogsGrow(g, hash, log', whole);
    LogsGrow(g, hash, log, log');
    LogNamesAreHashed(g, hash, log');
    HashedNamesGrow(LogManifest(log'));
    SafeNamesAreClean(g, root, LogManifest(log'));
    forall p, q, k: nat | p in LogManifest(log') && q in LogManifest(log') && 0 < k < |p|
      ensures !Comparable(p[k..], q)
    {
      NamesApart(g, root, p, q, k);
    }
    forall q, p | q in LogManifest(log) && p in LogManifest(log') && q < p
      ensures Outgrows(q, LogManifest(log)[q], p, LogManifest(log')[p])
    {
      NamesOutgrow(g, hash, root, log', whole, q, p);
    }
  }

  lemma NamesOutgrow(g: Graph, hash: string -> Digest, root: string, log: seq<Entry>, whole: seq<Entry>, q: string, p: string)
    requires SafeNames(g, root) && Distinguished(g, hash) && CompleteLog(g, hash, whole) && log <= whole
    requires q in LogManifest(log) && p in LogManifest(log) && q < p
    ensures Outgrows(q, LogManifest(log)[q], p, LogManifest(log)[p])
  {
    hide ValidLog, LogManifest, HashedStaticAssetPath, Tag, Outgrows, IsTag, IsRoot;
    LogsGrow(g, hash, log, whole);
    LogEntries(g, hash, log);
    var i := ManifestEntry(log, q);
    var j := ManifestEntry(log, p);
    var s, t := Tag(hash, log[i].content), Tag(hash, log[j].content);
    assert whole[i] == log[i] && whole[j] == log[j];
    assert Rooted(p, root);
    TwinsOutgrow(q, p, s, t);
  }

  lemma {:induction false} EntryIsSubstitution(g: Graph, hash: string -> Digest, root: string, log: seq<Entry>, e: Entry)
    requires SafeNames(g, root) && ValidLog(g, hash, log) && EntryOk(g, hash, log, e)
    ensures e.content == Substitute(g[e.path].content, LogManifest(log))
  {
    hide ValidLog, LogManifest, FinalName, SafeNames, Substitute, Rewrite;
    LogNamesAreHashed(g, hash, log);
    SafeNamesAreClean(g, root, LogManifest(log));
    SequentialIsSimultaneous(g[e.path].content, LogManifest(log));
  }

  /** A log that finalises `a` right after `log`, and can be completed. */
  lemma FinaliseNow(g: Graph, hash: string -> Digest, log: seq<Entry>, a: string) returns (e: Entry, whole: seq<Entry>)
    requires Walkable(g) && ValidLog(g, hash, log) && a in g && a !in LogManifest(log)
    requires forall d :: d in g[a].dependencies ==> d in LogManifest(log)
    ensures e.path == a && EntryOk(g, hash, log, e) && CompleteLog(g, hash, whole) && log + [e] <= whole
  {
    hide ValidLog, LogManifest, Rewrite, EntryOk;
    e := Append(g, hash, log, a);
    whole := Complete(g, hash, log + [e]);
  }

  /** The walk that finalises just what `a` needs, and the one that finalises `p` and what it needs as well. */
  lemma TwoWalks(g: Graph, hash: string -> Digest, a: string, p: string) returns (log: seq<Entry>, log': seq<Entry>)
    requires Walkable(g) && a in g && p in Others(g, a)
    ensures ValidLog(g, hash, log') && log <= log' && ValidLog(g, hash, log)
    ensures LogManifest(log).Keys <= Below(g, a) && p in LogManifest(log') && a !in LogManifest(log')
    ensures forall d :: d in g[a].dependencies ==> d in LogManifest(log)
  {
    hide ValidLog, LogManifest, Reaches;
    EmptyLog(g, hash, map[]);
    assert IsStack(g, [], a) && IsStack(g, [], p);
    NoSelfReach(g, a);
    log := VisitDependencies(g, hash, [], [], a);
    log' := Visit(g, hash, log, [], p);
  }

  /** Where a path that `a` does not reach wins, two walks write different texts. */
  lemma {:induction false} OrderShows(g: Graph, hash: string -> Digest, root: string, a: string, i: nat)
    requires SafeNames(g, root) && Walkable(g) && Distinguished(g, hash)
    requires a in g && i <= |g[a].content| && !WinnerBelow(g, a, g[a].content[i..])
    ensures !OrderIndependent(g, hash)
  {
    hide ValidLog, LogManifest, SafeNames, Walkable, Distinguished, Substitute, Refines, Reaches, EntryOk, CompleteLog;
    var s := g[a].content;
    var n := LongestKey(s[i..], Plain(Others(g, a)), |s| - i);
    var log, log' := TwoWalks(g, hash, a, s[i..][..n]);
    LogsGrow(g, hash, log, log');
    var e, whole := FinaliseNow(g, hash, log, a);
    var e', whole' := FinaliseNow(g, hash, log', a);
    LogsRefine(g, hash, root, log, log', whole');
    EntryIsSubstitution(g, hash, root, log, e);
    EntryIsSubstitution(g, hash, root, log', e');
    Available(g, hash, log', e');
    SameTextSameWinners(s, LogManifest(log), LogManifest(log'));
    DifferentWinners(g, a, s, i, LogManifest(log), LogManifest(log'));
    assert whole[|log|] == e && whole'[|log'|] == e';
    assert !SameTexts(whole, whole');
  }

  lemma DifferentWinners(g: Graph, a: string, s: string, i: nat, m: Manifest, m': Manifest)
    requires i <= |s| && !WinnerBelow(g, a, s[i..]) && m.Keys <= Below(g, a) && m'.Keys <= Others(g, a)
    requires s[i..][..LongestKey(s[i..], Plain(Others(g, a)), |s| - i)] in m'
    ensures !SameWinners(s, m, m')
  {
    hide Reaches;
    var t := s[i..];
    var n := LongestKey(t, Plain(Others(g, a)), |t|);
    assert forall j :: n < j <= |t| ==> t[..j] !in Plain(Others(g, a));
    assert LongestKey(t, m', |s| - i) == n;
    assert LongestKey(t, m, |s| - i) != n;
  }

  /**
   Exact condition: on every acyclic dependency-closed graph with safe names, all complete walks write
   the same texts if and only if, at every position of the text of every asset `a`, the longest plain
   path that may be final before `a` is one that `a` reaches.
   */
  lemma {:induction false} OrderIndependentIff(g: Graph, hash: string -> Digest, root: string)
    requires SafeNames(g, root) && Closed(g) && Acyclic(g) && Distinguished(g, hash)
    ensures OrderIndependent(g, hash) <==> WinnersBelow(g)
  {
    hide SafeNames, Closed, Acyclic, Distinguished, WinnerBelow, ValidLog, LogManifest;
    if WinnersBelow(g) {
      forall log, log' | CompleteLog(g, hash, log) && CompleteLog(g, hash, log')
        ensures SameTexts(log, log')
      {
        TextsAgree(g, hash, root, log, log');
      }
    } else {
      var a: string, i: nat :| a in g && i <= |g[a].content| && !WinnerBelow(g, a, g[a].content[i..]);
      assert "" !in g by { NoEmptyPath(g, root); }
      OrderShows(g, hash, root, a, i);
    }
  }

  lemma NoEmptyPath(g: Graph, root: string)
    requires SafeNames(g, root)
    ensures "" !in g
  {
  }

  ghost predicate PrefixFree(g: Graph) {
    forall p, q :: p in g && q in g ==> !(p < q)
  }

  /** Without two paths of which one begins with the other, the condition is exact whatever the hash. */
  lemma {:induction false} PrefixFreeOrderIndependentIff(g: Graph, hash: string -> Digest, root: string)
    requires SafeNames(g, root) && Closed(g) && Acyclic(g) && PrefixFree(g)
    ensures OrderIndependent(g, hash) <==> WinnersBelow(g)
  {
    hide SafeNames, Closed, Acyclic, OrderIndependent, WinnersBelow, ValidLog, LogManifest, FinalName;
    forall log: seq<Entry>, i: nat, j: nat | CompleteLog(g, hash, log) && i < |log| && j < |log|
      ensures !(log[i].path < log[j].path)
    {
      LogEntries(g, hash, log);
    }
    OrderIndependentIff(g, hash, root);
  }

  // ---- Why the digits have to differ --------------------------------------------------------------------

  lemma TwinsAgree(q: string, p: string, tag: string)
    requires IsFilePath(p) && q < p && !(q <= HashedStaticAssetPath(p, tag))
    ensures HashedStaticAssetPath(q, tag) + p[|q|..] == HashedStaticAssetPath(p, tag)
  {
    hide HashedStaticAssetPath;
    var d, stem, e, rest := TwinParts(q, p, tag);
    HashedParts(d, stem, e, tag);
    HashedParts(d, stem, e + rest, tag);
    assert p[|q|..] == rest;
    assert d + "/" + stem + "." + tag + "." + e + rest == d + "/" + stem + "." + tag + "." + (e + rest);
  }

  /** Two empty assets whose paths differ only in that one continues the other, and an asset that names one and reaches the other. */
  ghost predicate Twins(g: Graph, x: string, q: string, p: string) {
    && q < p && x != q && x != p && g.Keys == {x, q, p}
    && g[q] == HashedAsset([], "") && g[p] == HashedAsset([], "") && g[x] == HashedAsset([q], p)
  }

  lemma EmptyTextNames(g: Graph, hash: string -> Digest, root: string, x: string, q: string, p: string, log: seq<Entry>, k: string)
    requires SafeNames(g, root) && Twins(g, x, q, p) && ValidLog(g, hash, log) && k in LogManifest(log) && k in {q, p}
    ensures LogManifest(log)[k] == FinalName(hash, k, "")
  {
    hide ValidLog, SafeNames, LogManifest, FinalName, EntryOk;
    var i := ManifestEntry(log, k);
    LogEntries(g, hash, log);
    PrefixIsValid(g, hash, log, i);
    EntryIsSubstitution(g, hash, root, log[..i], log[i]);
  }

  /** Whether or not `p` is final, the reference to it becomes the same text. */
  lemma TwinText(g: Graph, hash: string -> Digest, root: string, x: string, q: string, p: string, log: seq<Entry>, e: Entry)
    requires SafeNames(g, root) && Twins(g, x, q, p) && ValidLog(g, hash, log) && EntryOk(g, hash, log, e) && e.path == x
    ensures e.content == FinalName(hash, p, "")
  {
    hide ValidLog, SafeNames, LogManifest, FinalName, Rewrite, Substitute;
    var m := LogManifest(log);
    LogIsClosed(g, hash, log);
    EntryIsSubstitution(g, hash, root, log, e);
    EmptyTextNames(g, hash, root, x, q, p, log, q);
    NoEmptyPath(g, root);
    if p in m {
      EmptyTextNames(g, hash, root, x, q, p, log, p);
      SubstituteWhole(p, m);
    } else {
      assert m.Keys == {q};
      OnlyTwin(g, root, q, p, m);
      TwinNames(g, hash, root, q, p);
    }
  }

  lemma TwinNames(g: Graph, hash: string -> Digest, root: string, q: string, p: string)
    requires SafeNames(g, root) && q in g && p in g && q < p
    ensures FinalName(hash, q, "") + p[|q|..] == FinalName(hash, p, "")
  {
    hide HashedStaticAssetPath, Tag;
    assert Rooted(p, root) && q != p;
    TwinsAgree(q, p, Tag(hash, ""));
  }

  lemma OnlyTwin(g: Graph, root: string, q: string, p: string, m: Manifest)
    requires SafeNames(g, root) && q in g && p in g && q < p && m.Keys == {q}
    ensures Substitute(p, m) == m[q] + p[|q|..]
  {
    hide SafeNames;
    var m' := m[p := ""];
    NoEmptyPath(g, root);
    forall a, b, k: nat | a in m' && b in m' && 0 < k < |a|
      ensures !Comparable(a[k..], b)
    {
      NamesApart(g, root, a, b, k);
    }
    assert p[..|p|] == p && p[..|q|] == q && p[|p|..] == "" && p[|q|..|p|] == p[|q|..];
    assert LongestKey(p, m, |p|) == |q|;
    CopyRest(p, m, m', |q|, |p|);
  }

  lemma TwinsWinnerAbove(g: Graph, x: string, q: string, p: string)
    requires Twins(g, x, q, p)
    ensures !WinnerBelow(g, x, p)
  {
    hide Reaches;
    assert p[..|p|] == p;
    if Reaches(g, p, x) { ReachStays(g, {}, p, x); }
    if Reaches(g, x, p) { ReachStays(g, {q}, x, p); }
    assert p in Plain(Others(g, x)) && LongestKey(p, Plain(Others(g, x)), |p|) == |p|;
  }

  /**
   With equal digits the order can be hidden: here the winner is not reached, and still all walks write
   the same texts, whatever the hash.
   */
  lemma {:induction false} TwinsHideTheOrder(g: Graph, hash: string -> Digest, root: string, x: string, q: string, p: string)
    requires SafeNames(g, root) && Twins(g, x, q, p)
    ensures OrderIndependent(g, hash) && !WinnersBelow(g)
  {
    hide SafeNames, ValidLog, LogManifest, FinalName, WinnerBelow, EntryOk;
    TwinsWinnerAbove(g, x, q, p);
    assert g[x].content[0..] == p;
    forall log, log' | CompleteLog(g, hash, log) && CompleteLog(g, hash, log')
      ensures SameTexts(log, log')
    {
      TwinTexts(g, hash, root, x, q, p, log);
      TwinTexts(g, hash, root, x, q, p, log');
    }
  }

  lemma TwinTexts(g: Graph, hash: string -> Digest, root: string, x: string, q: string, p: string, log: seq<Entry>)
    requires SafeNames(g, root) && Twins(g, x, q, p) && ValidLog(g, hash, log)
    ensures forall i :: 0 <= i < |log| ==> log[i].content == if log[i].path == x then FinalName(hash, p, "") else ""
  {
    hide SafeNames, ValidLog, LogManifest, FinalName, EntryOk;
    LogEntries(g, hash, log);
    forall i | 0 <= i < |log|
      ensures log[i].content == if log[i].path == x then FinalName(hash, p, "") else ""
    {
      PrefixIsValid(g, hash, log, i);
      if log[i].path == x {
        TwinText(g, hash, root, x, q, p, log[..i], log[i]);
      } else {
        EntryIsSubstitution(g, hash, root, log[..i], log[i]);
      }
    }
  }

  lemma RootedBelow(f: string)
    requires IsFileName(f) && '/' !in f && f[0] != 's'
    ensures Rooted("/s/" + f, "/s/")
  {
    var p, r := "/s/" + f, "/s/";
    assert p == "/s" + "/" + f;
    FileBelow("/s", f);
    forall k: nat | 0 < k < |p|
      ensures !Comparable(p[k..], r)
    {
      assert p[k..][0] == p[k] && (k >= 3 ==> p[k] == f[k - 3]);
      assert k == 2 ==> p[k..][1] == f[0];
    }
  }

  /** The hashed path of a file `stem.e` below `/s/` is no continuation of a path that differs before or at the tag. */
  lemma NotContinued(stem: string, e: string, tag: string, p: string)
    requires |stem| == 1 && stem != "/" && '/' !in e && '.' !in e && e != "" && IsTag(tag)
    requires |p| >= 6 && (p[3] != stem[0] || !IsHex(p[5]))
    ensures !(p <= HashedStaticAssetPath("/s/" + Dotted(stem, e), tag))
  {
    hide HashedStaticAssetPath;
    HashedParts("/s", stem, e, tag);
    assert "/s" + "/" + Dotted(stem, e) == "/s/" + Dotted(stem, e);
    var h := "/s" + "/" + stem + "." + tag + "." + e;
    assert h[3] == stem[0] && h[5] == tag[0];
  }

  /** Such assets exist under safe names. */
  lemma TwinsWitness()
    ensures var g := map["/s/x.c" := HashedAsset(["/s/a.j"], "/s/a.js"), "/s/a.j" := HashedAsset([], ""), "/s/a.js" := HashedAsset([], "")];
            SafeNames(g, "/s/") && Twins(g, "/s/x.c", "/s/a.j", "/s/a.js")
  {
    hide HashedStaticAssetPath, Rooted;
    assert "/s/" + "x.c" == "/s/x.c" == "/s/" + Dotted("x", "c");
    assert "/s/" + "a.j" == "/s/a.j" == "/s/" + Dotted("a", "j");
    assert "/s/" + "a.js" == "/s/a.js" == "/s/" + Dotted("a", "js");
    RootedBelow("x.c");
    RootedBelow("a.j");
    RootedBelow("a.js");
    var paths := {"/s/x.c", "/s/a.j", "/s/a.js"};
    forall q, p, tag | q in paths && p in paths && q != p && IsTag(tag)
      ensures !(p <= HashedStaticAssetPath(q, tag))
    {
      var stem := if q == "/s/x.c" then "x" else "a";
      var e := if q == "/s/x.c" then "c" else if q == "/s/a.j" then "j" else "js";
      NotContinued(stem, e, tag, p);
    }
  }
}
