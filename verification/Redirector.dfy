/** The redirector: host and path normalisation, the redirect index and its refresh. */
module Redirector {
  import opened Wrappers
  import opened Strings

  // ---- Trimming ---------------------------------------------------------------------------------

  predicate IsSpace(c: char) {
    c == ' ' || '\t' <= c <= '\r'
  }

  predicate IsDot(c: char) {
    c == '.'
  }

  predicate IsSlash(c: char) {
    c == '/'
  }

  function TrimEnd(s: string, drop: char -> bool): (r: string)
    ensures r <= s && (r != "" ==> !drop(r[|r| - 1]))
    ensures forall i :: |r| <= i < |s| ==> drop(s[i])
  {
    if s != "" && drop(s[|s| - 1]) then TrimEnd(s[..|s| - 1], drop) else s
  }

  function TrimStart(s: string, drop: char -> bool): (r: string)
    ensures |r| <= |s| && (r != "" ==> !drop(r[0]))
    ensures forall i :: 0 <= i < |r| ==> r[i] == s[|s| - |r| + i]
  {
    if s != "" && drop(s[0]) then TrimStart(s[1..], drop) else s
  }

  function Trim(s: string): string {
    TrimEnd(TrimStart(s, IsSpace), IsSpace)
  }

  /** The part before the last colon, or everything. */
  function WithoutPort(s: string): string {
    var i := AfterLast(s, ':');
    if i == 0 then s else s[..i - 1]
  }

  function NormalizeHost(host: string): string {
    Lower(TrimEnd(WithoutPort(Trim(host)), IsDot))
  }

  function NormalizeLegacyPath(path: string): string {
    var p := TrimEnd(path, IsSlash);
    if p == "" then "/" else p
  }

  function NormalizeRedirectHostSuffix(suffix: string): string {
    Lower(TrimEnd(TrimStart(Trim(suffix), IsDot), IsDot))
  }

  function StripSuffix(s: string, x: string): Option<string> {
    if |x| <= |s| && s[|s| - |x|..] == x then Some(s[..|s| - |x|]) else None
  }

  function CommunityNameFromHost(host: string, suffix: string): Option<string> {
    var rest := StripSuffix(NormalizeHost(host), suffix);
    if rest.None? then None
    else
      var name := StripSuffix(rest.value, ".");
      if name.Some? && name.value != "" && '.' !in name.value then name else None
  }

  // ---- Host parsing inverts host printing ------------------------------------------------------------

  lemma StripSuffixIff(s: string, x: string, r: string)
    ensures StripSuffix(s, x) == Some(r) <==> s == r + x
  {
    if s == r + x {
      assert s[|s| - |x|..] == x && s[..|s| - |x|] == r;
    }
    if StripSuffix(s, x).Some? {
      assert s == s[..|s| - |x|] + s[|s| - |x|..];
    }
  }

  /** A host is accepted with name `n` exactly when it normalises to `n`, a dot and the suffix. */
  lemma AcceptedHostIff(host: string, suffix: string, n: string)
    ensures CommunityNameFromHost(host, suffix) == Some(n) <==>
            NormalizeHost(host) == n + "." + suffix && n != "" && '.' !in n
  {
    var h := NormalizeHost(host);
    var rest := StripSuffix(h, suffix);
    StripSuffixIff(h, suffix, n + ".");
    StripSuffixIff(n + ".", ".", n);
    if rest.Some? {
      StripSuffixIff(h, suffix, rest.value);
      StripSuffixIff(rest.value, ".", n);
    }
  }

  lemma {:induction false} TrimEndAll(s: string, t: string, drop: char -> bool)
    requires forall i :: 0 <= i < |t| ==> drop(t[i])
    requires s != "" ==> !drop(s[|s| - 1])
    ensures TrimEnd(s + t, drop) == s
  {
    if t == "" {
      assert s + t == s;
    } else {
      assert (s + t)[..|s + t| - 1] == s + t[..|t| - 1];
      TrimEndAll(s, t[..|t| - 1], drop);
    }
  }

  lemma {:induction false} TrimStartAll(t: string, s: string, drop: char -> bool)
    requires forall i :: 0 <= i < |t| ==> drop(t[i])
    requires s != "" ==> !drop(s[0])
    ensures TrimStart(t + s, drop) == s
  {
    if t == "" {
      assert t + s == s;
    } else {
      assert (t + s)[1..] == t[1..] + s;
      TrimStartAll(t[1..], s, drop);
    }
  }

  lemma TrimAround(pre: string, s: string, post: string)
    requires s != "" && !IsSpace(s[0]) && !IsSpace(s[|s| - 1])
    requires (forall i :: 0 <= i < |pre| ==> IsSpace(pre[i])) && forall i :: 0 <= i < |post| ==> IsSpace(post[i])
    ensures Trim(pre + s + post) == s
  {
    assert pre + s + post == pre + (s + post);
    TrimStartAll(pre, s + post, IsSpace);
    TrimEndAll(s, post, IsSpace);
  }

  lemma PortDropped(s: string, port: string)
    requires ':' !in s && ':' !in port
    ensures WithoutPort(s) == s && WithoutPort(s + ":" + port) == s
  {
    var all := s + ":" + port;
    assert all[|s|] == ':' && forall i :: |s| < i < |all| ==> all[i] == port[i - |s| - 1];
    assert AfterLast(all, ':') == |s| + 1;
    assert all[..|s|] == s;
  }

  predicate Dots(s: string) {
    forall i :: 0 <= i < |s| ==> s[i] == '.'
  }

  predicate Spaces(s: string) {
    forall i :: 0 <= i < |s| ==> IsSpace(s[i])
  }

  predicate Spaceless(s: string) {
    forall i :: 0 <= i < |s| ==> !IsSpace(s[i])
  }

  /** What may follow a host name: dots, then possibly a colon and a port. */
  function Tail(dots: string, port: Option<string>): string {
    match port
    case None => dots
    case Some(p) => dots + ":" + p
  }

  predicate IsPort(port: Option<string>) {
    port.Some? ==> ':' !in port.value && Spaceless(port.value)
  }

  lemma TailDropped(x: string, dots: string, port: Option<string>)
    requires ':' !in x && Dots(dots) && IsPort(port)
    requires x != "" && x[|x| - 1] != '.'
    ensures TrimEnd(WithoutPort(x + Tail(dots, port)), IsDot) == x
  {
    hide WithoutPort, TrimEnd, Spaceless;
    PortDropped(x + dots, if port.Some? then port.value else "");
    assert port.Some? ==> x + Tail(dots, port) == x + dots + ":" + port.value;
    TrimEndAll(x, dots, IsDot);
  }

  /** A label the redirector prints in front of its suffix. */
  predicate IsName(n: string) {
    n != "" && Lower(n) == n && '.' !in n && ':' !in n && Spaceless(n)
  }

  predicate IsHostSuffix(s: string) {
    s != "" && s[|s| - 1] != '.' && ':' !in s && Spaceless(s)
  }

  lemma LowerKeepsKind(x: string, y: string)
    requires Lower(x) == y
    ensures (':' in x <==> ':' in y) && (Spaceless(x) <==> Spaceless(y))
    ensures x != "" ==> (x[|x| - 1] == '.' <==> y[|y| - 1] == '.')
  {
    assert forall i :: 0 <= i < |x| ==> y[i] == LowerChar(x[i]);
  }

  lemma TrimmedKind(t: string, drop: char -> bool)
    requires Spaceless(t) && ':' !in t
    ensures Spaceless(TrimStart(t, drop)) && ':' !in TrimStart(t, drop)
    ensures Spaceless(TrimEnd(t, drop)) && ':' !in TrimEnd(t, drop)
  {
    hide TrimStart, TrimEnd;
    var u, v := TrimStart(t, drop), TrimEnd(t, drop);
    assert forall i :: 0 <= i < |u| ==> u[i] == t[|t| - |u| + i];
    assert forall i :: 0 <= i < |v| ==> v[i] == t[i];
  }

  /** A configured suffix without blanks or colons inside normalises to one the round trip below covers, or to nothing. */
  lemma NormalizedSuffix(configured: string)
    requires Spaceless(Trim(configured)) && ':' !in Trim(configured)
    ensures var s := NormalizeRedirectHostSuffix(configured); s == "" || (IsHostSuffix(s) && s[0] != '.' && Lower(s) == s)
  {
    hide TrimStart, TrimEnd, Trim, Lower;
    var t := Trim(configured);
    TrimmedKind(t, IsDot);
    TrimmedKind(TrimStart(t, IsDot), IsDot);
    LoweredSuffix(TrimEnd(TrimStart(t, IsDot), IsDot));
  }

  lemma LoweredSuffix(v: string)
    requires Spaceless(v) && ':' !in v && (v != "" ==> v[0] != '.' && v[|v| - 1] != '.')
    ensures Lower(v) == "" || (IsHostSuffix(Lower(v)) && Lower(v)[0] != '.' && Lower(Lower(v)) == Lower(v))
  {
    LowerKeepsKind(v, Lower(v));
    LowerTwice(v);
  }

  /** A suffix is recovered from any way of configuring it: in any letter case, between any dots and blanks. */
  lemma {:induction false} SuffixRoundTrip(suffix: string, x: string, dots: string, dots': string, pre: string, post: string)
    requires suffix != "" && suffix[0] != '.' && suffix[|suffix| - 1] != '.' && Spaceless(suffix) && Lower(x) == suffix
    requires Dots(dots) && Dots(dots') && Spaces(pre) && Spaces(post)
    ensures NormalizeRedirectHostSuffix(pre + (dots + (x + dots')) + post) == suffix
  {
    hide TrimEnd, TrimStart, Trim, Lower, Spaceless, Spaces;
    SuffixKind(suffix, x);
    WrappedSpaceless(dots, x, dots');
    TrimAroundSpaceless(pre, dots + (x + dots'), post);
    TrimStartAll(dots, x + dots', IsDot);
    TrimEndAll(x, dots', IsDot);
  }

  lemma SuffixKind(suffix: string, x: string)
    requires suffix != "" && suffix[0] != '.' && suffix[|suffix| - 1] != '.' && Spaceless(suffix) && Lower(x) == suffix
    ensures x != "" && x[0] != '.' && x[|x| - 1] != '.' && Spaceless(x)
  {
    LowerKeepsKind(x, suffix);
    assert LowerChar(x[0]) == suffix[0];
  }

  lemma WrappedSpaceless(dots: string, x: string, dots': string)
    requires Dots(dots) && Dots(dots') && Spaceless(x)
    ensures Spaceless(dots + (x + dots'))
  {
  }

  lemma TrimAroundSpaceless(pre: string, t: string, post: string)
    requires t != "" && Spaceless(t) && Spaces(pre) && Spaces(post)
    ensures Trim(pre + t + post) == t
  {
    hide Trim;
    TrimAround(pre, t, post);
  }

  /**
   Round trip: a name printed in front of the suffix, in any letter case, with any trailing dots, any
   port and any surrounding blanks, is parsed back to itself.
   */
  lemma {:induction false} HostRoundTrip(name: string, suffix: string, x: string, dots: string, port: Option<string>, pre: string, post: string)
    requires IsName(name) && IsHostSuffix(suffix) && Lower(x) == name + "." + suffix
    requires Dots(dots) && IsPort(port) && Spaces(pre) && Spaces(post)
    ensures CommunityNameFromHost(pre + (x + Tail(dots, port)) + post, suffix) == Some(name)
  {
    hide WithoutPort, TrimEnd, TrimStart;
    var y, t := name + "." + suffix, x + Tail(dots, port);
    assert Spaceless(y) && ':' !in y && y[|y| - 1] == suffix[|suffix| - 1];
    LowerKeepsKind(x, y);
    assert Spaceless(t);
    TrimAround(pre, t, post);
    TailDropped(x, dots, port);
    AcceptedHostIff(pre + t + post, suffix, name);
  }

  // ---- The redirect index ---------------------------------------------------------------------------

  datatype CommunityRedirects = CommunityRedirects(baseLegacyUrl: Option<string>, redirects: map<string, string>)

  type Redirects = map<string, CommunityRedirects>

  /** A row, or a column that could not be read. */
  datatype CommunityRow = CommunityRow(community: string, base: Option<string>) | BadCommunityRow
  datatype RedirectRow = RedirectRow(name: string, legacyPath: string, newPath: string) | BadRedirectRow

  /** The legacy URL of the last row for a community, if it has a row. */
  function LastBase(rows: seq<CommunityRow>, c: string): Option<Option<string>> {
    if rows == [] then None
    else
      var r := rows[|rows| - 1];
      if r.CommunityRow? && r.community == c then Some(r.base) else LastBase(rows[..|rows| - 1], c)
  }

  /** The target of the last row for a community and path, if there is one. */
  function LastPath(rows: seq<RedirectRow>, c: string, p: string): Option<string> {
    if rows == [] then None
    else
      var r := rows[|rows| - 1];
      if r.RedirectRow? && r.name == c && r.legacyPath == p then Some(r.newPath) else LastPath(rows[..|rows| - 1], c, p)
  }

  predicate Mentions(rows: seq<RedirectRow>, c: string) {
    exists i :: 0 <= i < |rows| && rows[i].RedirectRow? && rows[i].name == c
  }

  function Get(idx: Redirects, c: string, p: string): Option<string> {
    if c in idx && p in idx[c].redirects then Some(idx[c].redirects[p]) else None
  }

  /** The index is the last-row-wins reading of the rows; seeded communities are there without rows. */
  ghost predicate Indexes(idx: Redirects, communities: seq<CommunityRow>, rows: seq<RedirectRow>) {
    && (forall c :: c in idx <==> LastBase(communities, c).Some? || Mentions(rows, c))
    && (forall c :: c in idx ==> idx[c].baseLegacyUrl == var b := LastBase(communities, c); if b.Some? then b.value else None)
    && (forall c, p :: Get(idx, c, p) == LastPath(rows, c, p))
  }

  /** One attempt to load the redirects: what the pool and the two queries answer. */
  datatype Load = Load(connects: bool, communities: Result<seq<CommunityRow>>, rows: Result<seq<RedirectRow>>)

  predicate Readable(load: Load) {
    && load.connects && load.communities.Ok? && load.rows.Ok?
    && (forall i :: 0 <= i < |load.communities.value| ==> load.communities.value[i].CommunityRow?)
    && (forall i :: 0 <= i < |load.rows.value| ==> load.rows.value[i].RedirectRow?)
  }

  ghost predicate IndexesLoad(idx: Redirects, load: Load) {
    Readable(load) && Indexes(idx, load.communities.value, load.rows.value)
  }

  method LoadRedirects(load: Load) returns (r: Result<Redirects>)
    ensures r.Ok? <==> Readable(load)
    ensures r.Ok? ==> IndexesLoad(r.value, load)
  {
    hide Indexes;
    if !load.connects || load.communities.Err? || load.rows.Err? {
      return Err("redirects not loaded");
    }
    var communities, rows := load.communities.value, load.rows.value;
    EmptyIndex();
    var idx: Redirects := map[];
    for i := 0 to |communities|
      invariant forall k :: 0 <= k < i ==> communities[k].CommunityRow?
      invariant Indexes(idx, communities[..i], [])
    {
      var row := communities[i];
      if row.BadCommunityRow? {
        return Err("row not readable");
      }
      SeedStep(idx, communities[..i], row);
      assert communities[..i] + [row] == communities[..i + 1];
      idx := idx[row.community := CommunityRedirects(row.base, map[])];
    }
    assert communities[..|communities|] == communities;
    for i := 0 to |rows|
      invariant forall k :: 0 <= k < i ==> rows[k].RedirectRow?
      invariant Indexes(idx, communities, rows[..i])
    {
      var row := rows[i];
      if row.BadRedirectRow? {
        return Err("row not readable");
      }
      var entry := if row.name in idx then idx[row.name] else CommunityRedirects(None, map[]);
      AttachStep(idx, communities, rows[..i], row);
      assert rows[..i] + [row] == rows[..i + 1];
      idx := idx[row.name := entry.(redirects := entry.redirects[row.legacyPath := row.newPath])];
    }
    assert rows[..|rows|] == rows;
    r := Ok(idx);
  }

  lemma EmptyIndex()
    ensures Indexes(map[], [], [])
  {
  }

  lemma SeedStep(idx: Redirects, communities: seq<CommunityRow>, row: CommunityRow)
    requires Indexes(idx, communities, []) && row.CommunityRow?
    ensures Indexes(idx[row.community := CommunityRedirects(row.base, map[])], communities + [row], [])
  {
    var idx' := idx[row.community := CommunityRedirects(row.base, map[])];
    var all := communities + [row];
    assert all[..|all| - 1] == communities;
    forall c, p
      ensures Get(idx', c, p) == LastPath([], c, p)
    {
      assert Get(idx, c, p) == LastPath([], c, p);
    }
  }

  lemma AttachStep(idx: Redirects, communities: seq<CommunityRow>, rows: seq<RedirectRow>, row: RedirectRow)
    requires Indexes(idx, communities, rows) && row.RedirectRow?
    ensures var entry := if row.name in idx then idx[row.name] else CommunityRedirects(None, map[]);
            Indexes(idx[row.name := entry.(redirects := entry.redirects[row.legacyPath := row.newPath])], communities, rows + [row])
  {
    var entry := if row.name in idx then idx[row.name] else CommunityRedirects(None, map[]);
    var idx' := idx[row.name := entry.(redirects := entry.redirects[row.legacyPath := row.newPath])];
    var all := rows + [row];
    assert all[..|all| - 1] == rows && all[|rows|] == row;
    forall c
      ensures Mentions(all, c) <==> Mentions(rows, c) || c == row.name
    {
      assert forall i :: 0 <= i < |rows| ==> all[i] == rows[i];
    }
    forall c, p
      ensures Get(idx', c, p) == LastPath(all, c, p)
    {
      assert Get(idx, c, p) == LastPath(rows, c, p);
    }
  }

  // ---- Serving and refreshing --------------------------------------------------------------------------

  /** The most recent load that could be read. */
  ghost function Latest(loads: seq<Load>): (l: Load)
    requires loads != [] && Readable(loads[0])
    ensures Readable(l)
    ensures exists i :: 0 <= i < |loads| && loads[i] == l && forall j :: i < j < |loads| ==> !Readable(loads[j])
  {
    if Readable(loads[|loads| - 1]) then loads[|loads| - 1] else Latest(loads[..|loads| - 1])
  }

  class Server {
    const cfg: Config
    var redirects: Redirects
    ghost var loads: seq<Load>

    constructor (cfg: Config, loaded: Redirects, ghost load: Load)
      requires IndexesLoad(loaded, load)
      ensures this.cfg == cfg && Valid() && loads == [load]
    {
      this.cfg, redirects, loads := cfg, loaded, [load];
    }

    /** The served index is always that of the latest load that could be read. */
    ghost predicate Valid()
      reads this
    {
      loads != [] && Readable(loads[0]) && IndexesLoad(redirects, Latest(loads))
    }

    /** One turn of the refresh loop: swap the whole index or keep it. */
    method Refresh(load: Load)
      requires Valid()
      modifies this
      ensures Valid() && loads == old(loads) + [load]
      ensures !Readable(load) ==> redirects == old(redirects)
    {
      hide IndexesLoad, Readable;
      var loaded := LoadRedirects(load);
      loads := loads + [load];
      assert loads[..|loads| - 1] == old(loads) && loads[0] == old(loads)[0];
      match loaded {
        case Ok(value) => redirects := value;
        case Err(_) =>
      }
    }

    /** After any refreshes, a request is answered as the rows of the latest readable load say. */
    method Answer(req: Request) returns (response: Response)
      requires Valid()
      ensures response == AnswerFromLoad(cfg, Latest(loads), req)
    {
      response := Redirect(cfg, redirects, req);
      RequestFollowsRows(cfg, redirects, Latest(loads).communities.value, Latest(loads).rows.value, req);
    }
  }

  /** Starts serving only if the first load can be read. */
  method Start(cfg: Config, load: Load) returns (server: Server?)
    ensures server != null <==> Readable(load)
    ensures server != null ==> server.cfg == cfg && server.Valid() && server.loads == [load]
  {
    var loaded := LoadRedirects(load);
    match loaded {
      case Ok(value) => server := new Server(cfg, value, load);
      case Err(_) => server := null;
    }
  }

  // ---- Requests ---------------------------------------------------------------------------------------

  datatype Response = NotFound | Permanent(target: string)

  datatype Config = Config(base: string, suffix: string)

  /** A request: the host header, the path and the query. */
  datatype Request = Request(host: Option<string>, path: string, query: Option<string>)

  function PathAndQuery(req: Request): string {
    req.path + if req.query.Some? then "?" + req.query.value else ""
  }

  /** Where a path of a known community leads, given one snapshot of the index. */
  function Target(cfg: Config, entry: CommunityRedirects, community: string, req: Request): string {
    var path := NormalizeLegacyPath(req.path);
    if path == "/" then cfg.base + "/" + community
    else if path in entry.redirects then cfg.base + entry.redirects[path]
    else if entry.baseLegacyUrl.Some? then TrimEnd(entry.baseLegacyUrl.value, IsSlash) + PathAndQuery(req)
    else cfg.base + "/" + community
  }

  function Redirect(cfg: Config, idx: Redirects, req: Request): Response {
    if req.host.None? then NotFound
    else
      var community := CommunityNameFromHost(req.host.value, cfg.suffix);
      if community.None? || community.value !in idx then NotFound
      else Permanent(Target(cfg, idx[community.value], community.value, req))
  }

  /** The request is answered from the legacy site, with its original path and query. */
  predicate UsesLegacy(cfg: Config, idx: Redirects, req: Request) {
    req.host.Some? &&
    var community := CommunityNameFromHost(req.host.value, cfg.suffix);
    community.Some? && community.value in idx &&
    var path := NormalizeLegacyPath(req.path);
    path != "/" && path !in idx[community.value].redirects && idx[community.value].baseLegacyUrl.Some?
  }

  predicate Slashes(s: string) {
    forall i :: 0 <= i < |s| ==> s[i] == '/'
  }

  /** Trailing slashes are dropped and nothing else is; a path of slashes only is the root. */
  lemma {:induction false} TrailingSlashesDoNotCount(path: string, slashes: string)
    requires Slashes(slashes)
    ensures NormalizeLegacyPath(path + slashes) == NormalizeLegacyPath(path)
    ensures path != "" && path[|path| - 1] != '/' ==> NormalizeLegacyPath(path + slashes) == path
    ensures NormalizeLegacyPath(slashes) == "/"
  {
    hide TrimEnd;
    var p := TrimEnd(path, IsSlash);
    var rest := path[|p|..] + slashes;
    assert path + slashes == p + rest && path == p + path[|p|..];
    TrimEndAll(p, rest, IsSlash);
    TrimEndAll(p, path[|p|..], IsSlash);
    assert "" + slashes == slashes;
    TrimEndAll("", slashes, IsSlash);
  }

  /**
   A request sent to the legacy site goes to the configured address, without its trailing slashes, followed
   by the path as it came and, if there is a query, a question mark and the query.
   */
  lemma {:induction false} LegacyTarget(cfg: Config, idx: Redirects, req: Request, base: string, slashes: string)
    requires UsesLegacy(cfg, idx, req) && Slashes(slashes) && (base != "" ==> base[|base| - 1] != '/')
    requires idx[CommunityNameFromHost(req.host.value, cfg.suffix).value].baseLegacyUrl == Some(base + slashes)
    ensures req.query.None? ==> Redirect(cfg, idx, req) == Permanent(base + req.path)
    ensures req.query.Some? ==> Redirect(cfg, idx, req) == Permanent(base + req.path + "?" + req.query.value)
  {
    hide CommunityNameFromHost, NormalizeLegacyPath, TrimEnd;
    TrimEndAll(base, slashes, IsSlash);
    if req.query.Some? {
      assert base + (req.path + ("?" + req.query.value)) == base + req.path + "?" + req.query.value;
    } else {
      assert base + (req.path + "") == base + req.path;
    }
  }

  /**
   Two requests whose paths differ only in trailing slashes get the same answer unless they really
   differ and are sent to the legacy site, which gets the path as it came.
   */
  lemma {:induction false} TrailingSlashIff(cfg: Config, idx: Redirects, req: Request, slashes: string)
    requires Slashes(slashes)
    ensures Redirect(cfg, idx, req) == Redirect(cfg, idx, req.(path := req.path + slashes)) <==>
            slashes == "" || !UsesLegacy(cfg, idx, req)
  {
    hide CommunityNameFromHost, NormalizeLegacyPath, TrimEnd;
    TrailingSlashesDoNotCount(req.path, slashes);
    var req' := req.(path := req.path + slashes);
    if slashes == "" {
      assert req.path + slashes == req.path;
    } else if UsesLegacy(cfg, idx, req) {
      var base := idx[CommunityNameFromHost(req.host.value, cfg.suffix).value].baseLegacyUrl.value;
      assert |TrimEnd(base, IsSlash) + PathAndQuery(req')| == |TrimEnd(base, IsSlash) + PathAndQuery(req)| + |slashes|;
    }
  }

  /** A concrete pair of requests that the legacy fallback tells apart. */
  lemma TrailingSlashWitness()
    ensures var cfg := Config("https://b", "s");
            var idx := map["n" := CommunityRedirects(Some("https://l"), map[])];
            var req := Request(Some("n.s"), "/p", None);
            && Redirect(cfg, idx, req) == Permanent("https://l/p")
            && Redirect(cfg, idx, req.(path := "/p/")) == Permanent("https://l/p/")
  {
    hide CommunityNameFromHost, NormalizeHost, Lower;
    NormalizedWitness();
    AcceptedHostIff("n.s", "s", "n");
    assert NormalizeLegacyPath("/p") == "/p" && "/p" + "/" == "/p/";
    TrailingSlashesDoNotCount("/p", "/");
    assert TrimEnd("https://l", IsSlash) == "https://l";
  }

  lemma NormalizedWitness()
    ensures NormalizeHost("n.s") == "n" + "." + "s"
  {
    assert Trim("n.s") == "n.s";
    assert WithoutPort("n.s") == "n.s";
    assert TrimEnd("n.s", IsDot) == "n.s";
    assert Lower("n.s") == "n.s";
  }

  /** The answer to a request for community `c`, read off the loaded rows. */
  function AnswerFromRows(cfg: Config, communities: seq<CommunityRow>, rows: seq<RedirectRow>, c: string, req: Request): Response {
    var base, p := LastBase(communities, c), NormalizeLegacyPath(req.path);
    if base.None? && !Mentions(rows, c) then NotFound
    else if p == "/" then Permanent(cfg.base + "/" + c)
    else if LastPath(rows, c, p).Some? then Permanent(cfg.base + LastPath(rows, c, p).value)
    else if base.Some? && base.value.Some? then Permanent(TrimEnd(base.value.value, IsSlash) + PathAndQuery(req))
    else Permanent(cfg.base + "/" + c)
  }

  function AnswerFromLoad(cfg: Config, load: Load, req: Request): Response
    requires Readable(load)
  {
    var c := if req.host.Some? then CommunityNameFromHost(req.host.value, cfg.suffix) else None;
    if c.Some? then AnswerFromRows(cfg, load.communities.value, load.rows.value, c.value, req) else NotFound
  }

  /**
   Every request is answered as the loaded rows say, the last row winning; a community that was seeded
   but has no rows still resolves.
   */
  lemma {:induction false} RequestFollowsRows(cfg: Config, idx: Redirects, communities: seq<CommunityRow>, rows: seq<RedirectRow>, req: Request)
    requires Indexes(idx, communities, rows)
    ensures var c := if req.host.Some? then CommunityNameFromHost(req.host.value, cfg.suffix) else None;
            && Redirect(cfg, idx, req) == (if c.Some? then AnswerFromRows(cfg, communities, rows, c.value, req) else NotFound)
            && (c.Some? && LastBase(communities, c.value).Some? ==> Redirect(cfg, idx, req) != NotFound)
  {
    hide CommunityNameFromHost, NormalizeLegacyPath, TrimEnd;
    var c := if req.host.Some? then CommunityNameFromHost(req.host.value, cfg.suffix) else None;
    if c.Some? {
      var p := NormalizeLegacyPath(req.path);
      assert Get(idx, c.value, p) == LastPath(rows, c.value, p);
    }
  }
}
