/** Final names of content-hashed assets. */
module AssetNaming {
  import opened Strings
  import opened AssetRewrite

  /** `Path::file_stem` and `Path::extension` of a file name: split at the last dot, unless it is the first character. */
  function Stem(file: string): string {
    var d := AfterLast(file, '.');
    if d <= 1 then file else file[..d - 1]
  }

  function Extension(file: string): string {
    var d := AfterLast(file, '.');
    if d <= 1 then "" else file[d..]
  }

  predicate IsHex(c: char) {
    '0' <= c <= '9' || 'a' <= c <= 'f'
  }

  /** The first eight hex digits of a content hash. */
  predicate IsTag(t: string) {
    |t| == 8 && forall i :: 0 <= i < 8 ==> IsHex(t[i])
  }

  function HashedFileName(file: string, tag: string): string {
    if Extension(file) == "" then Stem(file) + "." + tag
    else Stem(file) + "." + tag + "." + Extension(file)
  }

  function HashedStaticAssetPath(path: string, tag: string): string {
    var i := AfterLast(path, '/');
    path[..i] + HashedFileName(path[i..], tag)
  }

  /** A regular file below a directory: what collecting source files yields. */
  predicate IsFilePath(path: string) {
    var i := AfterLast(path, '/');
    i > 0 && path[i..] != "" && path[i..] != "." && path[i..] != ".."
  }

  lemma SplitName(file: string)
    ensures Extension(file) != "" ==> file == Stem(file) + "." + Extension(file) && Stem(file) != ""
    ensures Extension(file) == "" ==> file == Stem(file) || file == Stem(file) + "."
    ensures '.' !in Extension(file)
  {
    var d := AfterLast(file, '.');
    if d > 1 { assert file == file[..d - 1] + [file[d - 1]] + file[d..]; }
  }

  /** Every hashed path is longer than its plain path. */
  lemma HashedPathGrows(path: string, tag: string)
    requires IsTag(tag)
    ensures |path| < |HashedStaticAssetPath(path, tag)|
  {
    SplitName(path[AfterLast(path, '/')..]);
  }

  lemma EqualSplit(a: string, x: char, b: string, c: string, y: char, d: string)
    requires a + [x] + b == c + [y] + d && |b| == |d|
    ensures a == c && x == y && b == d
  {
    var s, t := a + [x] + b, c + [y] + d;
    assert a == s[..|a|] && c == t[..|c|];
    assert s[|a|] == x && t[|c|] == y;
    assert b == s[|a| + 1..] && d == t[|c| + 1..];
  }

  /** The part after the last occurrence of a character is determined by the text. */
  lemma LastSplit(a: string, c: char, b: string, a': string, b': string)
    requires a + [c] + b == a' + [c] + b' && c !in b && c !in b'
    ensures a == a' && b == b'
  {
    var s, t := a + [c] + b, a' + [c] + b';
    assert s[|a|] == c && t[|a'|] == c;
    assert forall k :: |a| < k < |s| ==> s[k] == b[k - |a| - 1];
    assert forall k :: |a'| < k < |t| ==> t[k] == b'[k - |a'| - 1];
    EqualSplit(a, c, b, a', c, b');
  }

  /** `a + "." + b`, kept as one term so that splits are found by name. */
  function Dotted(a: string, b: string): string {
    a + "." + b
  }

  lemma HashedForm(file: string, tag: string)
    ensures HashedFileName(file, tag) ==
            if Extension(file) == "" then Dotted(Stem(file), tag)
            else Dotted(Dotted(Stem(file), tag), Extension(file))
  {
  }

  lemma DottedSplit(a: string, b: string, a': string, b': string)
    requires Dotted(a, b) == Dotted(a', b') && '.' !in b && '.' !in b'
    ensures a == a' && b == b'
  {
    LastSplit(a, '.', b, a', b');
  }

  /** A file name in which dots occur past the first character splits there. */
  lemma StemOfDotted(a: string, b: string)
    requires a != "" && '.' !in b
    ensures Stem(Dotted(a, b)) == a && Extension(Dotted(a, b)) == b
  {
    var s := Dotted(a, b);
    var d := AfterLast(s, '.');
    assert s[|a|] == '.' && forall k :: |a| < k < |s| ==> s[k] == b[k - |a| - 1];
    assert s[..|a|] == a && s[|a| + 1..] == b;
  }

  predicate IsFileName(f: string) {
    f != "" && f != "." && f != ".."
  }

  /**
   `g` ends in a dot and can be given a hashed name of `f`: it is `f` plus that dot, or it spells
   out a hashed name of `f` whose extension already looks like a tag.
   */
  predicate Shadows(f: string, g: string) {
    || (Stem(f) == f && g == Dotted(f, ""))
    || (|g| == |Stem(f)| + 10 && IsTag(Extension(f)) && IsTag(g[|Stem(f)| + 1..|g| - 1])
        && g == Dotted(Dotted(Stem(f), g[|Stem(f)| + 1..|g| - 1]), ""))
  }

  lemma TagHasNoDot(t: string)
    requires IsTag(t)
    ensures '.' !in t && '/' !in t
  {
  }

  lemma CollisionMeansShadow(f: string, g: string, s: string, t: string)
    requires IsFileName(f) && IsFileName(g) && f != g && IsTag(s) && IsTag(t)
    requires HashedFileName(f, s) == HashedFileName(g, t)
    requires Extension(f) == "" || Extension(g) != ""
    ensures Shadows(f, g) || Shadows(g, f)
  {
    TagHasNoDot(s);
    TagHasNoDot(t);
    SplitName(f);
    SplitName(g);
    HashedForm(f, s);
    HashedForm(g, t);
    if Extension(f) != "" {
      DottedSplit(Dotted(Stem(f), s), Extension(f), Dotted(Stem(g), t), Extension(g));
      DottedSplit(Stem(f), s, Stem(g), t);
    } else if Extension(g) == "" {
      DottedSplit(Stem(f), s, Stem(g), t);
      assert Dotted(f, "") == f + "." && Dotted(g, "") == g + ".";
    } else {
      DottedSplit(Stem(f), s, Dotted(Stem(g), t), Extension(g));
      StemOfDotted(Stem(g), t);
      assert f == Dotted(Stem(f), "");
      assert f[|Stem(g)| + 1..|f| - 1] == t;
    }
  }

  lemma ShadowMeansCollision(f: string, g: string)
    requires IsFileName(f) && IsFileName(g) && Shadows(f, g)
    ensures exists s, t :: IsTag(s) && IsTag(t) && HashedFileName(f, s) == HashedFileName(g, t)
  {
    if Stem(f) == f && g == Dotted(f, "") {
      StemOfDotted(f, "");
      var tag := "00000000";
      assert IsTag(tag);
      SplitName(f);
      assert HashedFileName(f, tag) == HashedFileName(g, tag);
    } else {
      var s, t := g[|Stem(f)| + 1..|g| - 1], Extension(f);
      TagHasNoDot(s);
      StemOfDotted(Dotted(Stem(f), s), "");
      HashedForm(f, s);
      HashedForm(g, t);
      assert HashedFileName(f, s) == HashedFileName(g, t);
    }
  }

  /** Exactly which two file names of one directory can end up with the same hashed name. */
  lemma {:induction false} CollisionIff(f: string, g: string)
    requires IsFileName(f) && IsFileName(g) && f != g
    ensures (exists s, t :: IsTag(s) && IsTag(t) && HashedFileName(f, s) == HashedFileName(g, t))
       <==> Shadows(f, g) || Shadows(g, f)
  {
    if s, t :| IsTag(s) && IsTag(t) && HashedFileName(f, s) == HashedFileName(g, t) {
      if Extension(f) == "" || Extension(g) != "" {
        CollisionMeansShadow(f, g, s, t);
      } else {
        CollisionMeansShadow(g, f, t, s);
      }
    }
    if Shadows(f, g) { ShadowMeansCollision(f, g); }
    if Shadows(g, f) {
      ShadowMeansCollision(g, f);
      var s, t :| IsTag(s) && IsTag(t) && HashedFileName(g, s) == HashedFileName(f, t);
    }
  }

  /** The files `a` and `a.` get the same hashed name whenever their hashes agree. */
  lemma CollisionWitness(tag: string)
    ensures HashedFileName("a", tag) == HashedFileName("a.", tag)
  {
    assert Stem("a.") == "a" && Extension("a.") == "";
  }

  function FileOf(path: string): string {
    path[AfterLast(path, '/')..]
  }

  predicate EndsInDot(path: string) {
    path != "" && path[|path| - 1] == '.'
  }

  lemma DottedNoSlash(a: string, b: string)
    requires '/' !in a && '/' !in b
    ensures '/' !in Dotted(a, b)
  {
  }

  lemma NoSlashInHashedName(f: string, tag: string)
    requires IsTag(tag) && '/' !in f
    ensures '/' !in HashedFileName(f, tag)
  {
    TagHasNoDot(tag);
    HashedForm(f, tag);
    assert '/' !in Stem(f) && '/' !in Extension(f);
    DottedNoSlash(Stem(f), tag);
    DottedNoSlash(Dotted(Stem(f), tag), Extension(f));
  }

  lemma NoSlashInFile(path: string)
    ensures '/' !in FileOf(path)
  {
    var f, i := FileOf(path), AfterLast(path, '/');
    assert forall k :: 0 <= k < |f| ==> f[k] == path[i + k];
  }

  /** Equal hashed paths share their directory and their hashed file name. */
  lemma SameDirectory(d: string, f: string, e: string, g: string, s: string, t: string)
    requires IsTag(s) && IsTag(t) && '/' !in f && '/' !in g
    requires d + "/" + HashedFileName(f, s) == e + "/" + HashedFileName(g, t)
    ensures d == e && HashedFileName(f, s) == HashedFileName(g, t)
  {
    NoSlashInHashedName(f, s);
    NoSlashInHashedName(g, t);
    LastSplit(d, '/', HashedFileName(f, s), e, HashedFileName(g, t));
  }

  lemma DirAndFile(path: string)
    requires IsFilePath(path)
    ensures var d := path[..AfterLast(path, '/') - 1];
            && path == d + "/" + FileOf(path)
            && IsFileName(FileOf(path)) && (EndsInDot(FileOf(path)) <==> EndsInDot(path))
  {
    hide AfterLast;
    var i := AfterLast(path, '/');
    assert path[i - 1] == '/' && path[..i] == path[..i - 1] + "/";
    assert path == path[..i] + path[i..];
    assert FileOf(path)[|path| - i - 1] == path[|path| - 1];
  }

  lemma PathSplit(dir: string, file: string)
    requires '/' !in file
    ensures AfterLast(dir + "/" + file, '/') == |dir| + 1
    ensures (dir + "/" + file)[..|dir| + 1] == dir + "/" && (dir + "/" + file)[|dir| + 1..] == file
  {
    hide AfterLast;
    var s, i := dir + "/" + file, AfterLast(dir + "/" + file, '/');
    assert s[|dir|] == '/';
    assert '/' in s && i > |dir|;
    assert s[..|dir| + 1] == dir + "/" && s[|dir| + 1..] == file;
  }

  lemma HashedAt(d: string, f: string, tag: string)
    requires '/' !in f
    ensures HashedStaticAssetPath(d + "/" + f, tag) == d + "/" + HashedFileName(f, tag)
  {
    PathSplit(d, f);
  }

  lemma ShadowEndsInDot(f: string, g: string)
    requires Shadows(f, g)
    ensures EndsInDot(g)
  {
  }

  /** Hashed naming is injective, whatever the hashes, on files whose names do not end in a dot. */
  lemma {:induction false} HashedPathInjective(p: string, q: string, s: string, t: string)
    requires IsFilePath(p) && IsFilePath(q) && !EndsInDot(p) && !EndsInDot(q) && IsTag(s) && IsTag(t)
    ensures HashedStaticAssetPath(p, s) == HashedStaticAssetPath(q, t) ==> p == q
  {
    var d, f, e, g := p[..AfterLast(p, '/') - 1], FileOf(p), q[..AfterLast(q, '/') - 1], FileOf(q);
    DirAndFile(p);
    DirAndFile(q);
    NoSlashInFile(p);
    NoSlashInFile(q);
    HashedAt(d, f, s);
    HashedAt(e, g, t);
    if HashedStaticAssetPath(p, s) == HashedStaticAssetPath(q, t) {
      SameDirectory(d, f, e, g, s, t);
      if f != g {
        CollisionIff(f, g);
        if Shadows(f, g) { ShadowEndsInDot(f, g); } else { ShadowEndsInDot(g, f); }
      }
    }
  }

  /** A path up to and including the dot in front of the hash. */
  function BeforeTag(q: string): string {
    q[..AfterLast(q, '/')] + Stem(FileOf(q)) + "."
  }

  lemma BeforeTagIsPrefix(q: string, tag: string)
    ensures BeforeTag(q) <= HashedStaticAssetPath(q, tag)
  {
    hide AfterLast;
    var b := BeforeTag(q);
    assert HashedStaticAssetPath(q, tag)[..|b|] == b;
  }

  /** In `name` the eight characters after the dot that follows the stem of `path` are `digits`. */
  predicate CarriesDigits(path: string, name: string, digits: string) {
    BeforeTag(path) <= name && |BeforeTag(path)| + 8 <= |name| && name[|BeforeTag(path)|..|BeforeTag(path)| + 8] == digits
  }

  lemma HashedCarriesDigits(path: string, tag: string)
    requires IsTag(tag)
    ensures CarriesDigits(path, HashedStaticAssetPath(path, tag), tag)
  {
    hide AfterLast;
    var b, ext := BeforeTag(path), Extension(FileOf(path));
    var rest := if ext == "" then "" else "." + ext;
    assert HashedStaticAssetPath(path, tag) == b + tag + rest;
  }

  /** The hashed path of every kind of file name: the digits go in front of the extension, or at the end. */
  lemma {:induction false} HashedForms(d: string, stem: string, ext: string, tag: string)
    requires '/' !in stem && '/' !in ext && '.' !in ext && stem != ""
    ensures HashedStaticAssetPath(d + "/" + (stem + "." + ext), tag) ==
            if ext == "" then d + "/" + (stem + "." + tag) else d + "/" + (stem + "." + tag + "." + ext)
    ensures '.' !in stem[1..] ==> HashedStaticAssetPath(d + "/" + stem, tag) == d + "/" + (stem + "." + tag)
  {
    hide AfterLast, HashedStaticAssetPath;
    DottedNoSlash(stem, ext);
    HashedAt(d, Dotted(stem, ext), tag);
    HashedAt(d, stem, tag);
    StemOfDotted(stem, ext);
    if '.' !in stem[1..] { WholeStem(stem); }
  }

  lemma WholeStem(f: string)
    requires f != "" && '.' !in f[1..]
    ensures Stem(f) == f && Extension(f) == ""
  {
    hide AfterLast;
    var d := AfterLast(f, '.');
    assert forall j :: 1 <= j < |f| ==> f[j] == f[1..][j - 1];
  }

  // ---- The rewriting side condition is needed ----------------------------------------------

  /**
   Whenever a later plain path is a prefix of the hashed path of `q`, the reference `q` is not
   rewritten to its own hashed path, and the loop is not the simultaneous substitution.
   */
  lemma {:induction false} PrefixPairBreaks(m: Manifest, q: string, p: string)
    requires "" !in m && q in m && p in m && Later(q, p) && p <= m[q]
    requires forall k :: k in m ==> |k| < |m[k]|
    ensures Rewrite(q, m) != m[q] == Substitute(q, m) && !Clean(m)
  {
    assert m[q][0..] == m[q];
    assert OccursAt(m[q], p, 0);
    OwnHashedPathIff(m, q);
    SubstituteWhole(q, m);
    if Clean(m) { SequentialIsSimultaneous(q, m); }
  }

  lemma MapFileName(f: string, tag: string)
    requires f != ""
    ensures HashedFileName(Dotted(f, "map"), tag) == f + ("." + tag + ".map")
  {
    StemOfDotted(f, "map");
    HashedForm(Dotted(f, "map"), tag);
  }

  lemma AppendToPath(d: string, f: string, x: string)
    ensures Dotted(d + "/" + f, x) == d + "/" + Dotted(f, x) && d + "/" + (f + x) == d + "/" + f + x
  {
  }

  lemma MapPath(d: string, f: string, tag: string)
    requires '/' !in f && f != ""
    ensures HashedStaticAssetPath(Dotted(d + "/" + f, "map"), tag) == d + "/" + f + ("." + tag + ".map")
  {
    DottedNoSlash(f, "map");
    AppendToPath(d, f, "map");
    AppendToPath(d, f, "." + tag + ".map");
    HashedAt(d, Dotted(f, "map"), tag);
    MapFileName(f, tag);
  }

  lemma SourceMapName(js: string, tag: string)
    requires IsFilePath(js)
    ensures HashedStaticAssetPath(Dotted(js, "map"), tag) == js + ("." + tag + ".map")
  {
    DirAndFile(js);
    NoSlashInFile(js);
    MapPath(js[..AfterLast(js, '/') - 1], FileOf(js), tag);
  }

  /** Every value is the hashed path of its key under some hash. */
  ghost predicate HashedNames(m: Manifest) {
    forall q :: q in m ==> exists tag :: IsTag(tag) && m[q] == HashedStaticAssetPath(q, tag)
  }

  lemma HashedNamesGrow(m: Manifest)
    requires HashedNames(m)
    ensures forall k :: k in m ==> |k| < |m[k]|
  {
    forall k | k in m
      ensures |k| < |m[k]|
    {
      var tag :| IsTag(tag) && m[k] == HashedStaticAssetPath(k, tag);
      HashedPathGrows(k, tag);
    }
  }

  /** Any asset with its source map beside it (`a.js` and `a.js.map`) is such a pair, whatever the hashes. */
  lemma {:induction false} SourceMapReferenceIsCorrupted(m: Manifest, js: string)
    requires "" !in m && HashedNames(m) && IsFilePath(js) && js in m && Dotted(js, "map") in m
    ensures var jsMap := Dotted(js, "map");
            Rewrite(jsMap, m) != m[jsMap] == Substitute(jsMap, m) && !Clean(m)
  {
    var jsMap := Dotted(js, "map");
    HashedNamesGrow(m);
    var tag :| IsTag(tag) && m[jsMap] == HashedStaticAssetPath(jsMap, tag);
    SourceMapName(js, tag);
    assert |js| < |jsMap|;
    PrefixPairBreaks(m, jsMap, js);
  }

  /** A concrete pair: the reference to the source map is not rewritten to the source map's own name. */
  lemma SourceMapWitness(s: string, t: string)
    requires IsTag(s) && IsTag(t)
    ensures var js, jsMap := "/static/js/a.js", "/static/js/a.js.map";
            var m := map[js := HashedStaticAssetPath(js, s), jsMap := HashedStaticAssetPath(jsMap, t)];
            "" !in m && Rewrite(jsMap, m) != m[jsMap] == Substitute(jsMap, m)
  {
    hide HashedStaticAssetPath, Rewrite, Substitute, Clean, AfterLast;
    var js, jsMap := "/static/js/a.js", "/static/js/a.js.map";
    var m := map[js := HashedStaticAssetPath(js, s), jsMap := HashedStaticAssetPath(jsMap, t)];
    assert jsMap == Dotted(js, "map");
    FileBelow("/static/js", "a.js");
    assert js == "/static/js" + "/" + "a.js";
    SourceMapReferenceIsCorrupted(m, js);
  }

  lemma FileBelow(d: string, f: string)
    requires '/' !in f && IsFileName(f)
    ensures IsFilePath(d + "/" + f)
  {
    hide AfterLast;
    PathSplit(d, f);
  }

  /** A text that is itself a reference is substituted as a whole. */
  lemma SubstituteWhole(q: string, m: Manifest)
    requires q in m && q != ""
    ensures Substitute(q, m) == m[q]
  {
    assert q[..|q|] == q && q[|q|..] == "";
    assert LongestKey(q, m, |q|) == |q|;
    assert m[q] + "" == m[q];
  }

  // ---- The exact side condition for assets below one root -------------------------------------

  /** A root directory such as `/static/`. */
  predicate IsRoot(r: string) {
    r != "" && r[0] == '/' && r[|r| - 1] == '/' && '.' !in r
  }

  /** A file below the root whose path shows the root, or a beginning of it, only at its start. */
  ghost predicate Rooted(p: string, r: string) {
    && IsFilePath(p) && r <= p
    && forall k: nat :: 0 < k < |p| ==> !Comparable(p[k..], r)
  }

  lemma ComparableThroughPrefix(x: string, p: string, r: string)
    requires Comparable(x, p) && r <= p
    ensures Comparable(x, r)
  {
    if x <= p {
      if |x| <= |r| { assert x == p[..|x|] == r[..|x|]; } else { assert r == p[..|r|] == x[..|r|]; }
    }
  }

  lemma RootInDirectory(q: string, r: string, tag: string)
    requires IsRoot(r) && Rooted(q, r)
    ensures |r| <= AfterLast(q, '/') && r <= HashedStaticAssetPath(q, tag)
  {
    var i := AfterLast(q, '/');
    assert q[|r| - 1] == '/';
    assert q[..i][..|r|] == r;
  }

  lemma SlashInDirectory(d: string, n: string, k: nat)
    requires k < |d + n| && (d + n)[k] == '/' && '/' !in n
    ensures k < |d|
  {
    assert forall j :: |d| <= j < |d + n| ==> (d + n)[j] == n[j - |d|];
  }

  /** An occurrence of the root lies in the directory part, whatever the file is called. */
  lemma RootOccursInDirectory(d: string, n: string, f: string, r: string, k: nat)
    requires IsRoot(r) && '/' !in n && OccursAt(d + n, r, k)
    ensures OccursAt(d + f, r, k)
  {
    var x := (d + n)[k..];
    assert x[|r| - 1] == r[|r| - 1] == (d + n)[k + |r| - 1];
    SlashInDirectory(d, n, k + |r| - 1);
    assert r == x[..|r|] == d[k..k + |r|] == (d + f)[k..][..|r|];
  }

  /** A tail that starts with a slash still has the dots of the file name. */
  lemma TailKeepsDot(d: string, n: string, k: nat)
    requires k < |d + n| && (d + n)[k] == '/' && '/' !in n && '.' in n
    ensures '.' in (d + n)[k..]
  {
    SlashInDirectory(d, n, k);
    var j :| 0 <= j < |n| && n[j] == '.';
    assert (d + n)[k..][|d| - k + j] == '.';
  }

  /** A file with a dot in its name is rooted as soon as the root does not occur again in its path. */
  lemma {:induction false} RootedIfDotted(p: string, r: string)
    requires IsRoot(r) && IsFilePath(p) && r <= p && '.' in FileOf(p)
    requires forall k: nat :: 0 < k < |p| ==> !OccursAt(p, r, k)
    ensures Rooted(p, r)
  {
    hide AfterLast;
    var d, f := p[..AfterLast(p, '/')], FileOf(p);
    NoSlashInFile(p);
    assert p == d + f;
    forall k: nat | 0 < k < |p|
      ensures !Comparable(p[k..], r)
    {
      assert !OccursAt(p, r, k) && p[k..][0] == p[k];
      if p[k] == '/' { TailKeepsDot(d, f, k); }
    }
  }

  lemma RootNotInside(d: string, f: string, n: string, r: string, k: nat)
    requires IsRoot(r) && '/' !in n && '.' in n && 0 < k < |d + n|
    requires forall j: nat :: 0 < j < |d + f| ==> !Comparable((d + f)[j..], r)
    ensures !Comparable((d + n)[k..], r)
  {
    var x := (d + n)[k..];
    if r <= x {
      RootOccursInDirectory(d, n, f, r, k);
    } else if x <= r {
      assert x[0] == r[0] == (d + n)[k];
      TailKeepsDot(d, n, k);
    }
  }

  lemma HashedNameHasDot(f: string, tag: string)
    ensures '.' in HashedFileName(f, tag)
  {
    assert HashedFileName(f, tag)[|Stem(f)|] == '.';
  }

  /** Strictly inside a hashed path the root does not show up either. */
  lemma RootNotInHashed(q: string, r: string, tag: string, k: nat)
    requires IsRoot(r) && Rooted(q, r) && IsTag(tag)
    requires 0 < k < |HashedStaticAssetPath(q, tag)|
    ensures !Comparable(HashedStaticAssetPath(q, tag)[k..], r)
  {
    var d, f := q[..AfterLast(q, '/')], FileOf(q);
    NoSlashInFile(q);
    NoSlashInHashedName(f, tag);
    HashedNameHasDot(f, tag);
    assert q == d + f;
    RootNotInside(d, f, HashedFileName(f, tag), r, k);
  }

  /** Below one root, plain and hashed paths overlap only at a common start. */
  lemma RootedPairApart(q: string, p: string, r: string, tag: string)
    requires IsRoot(r) && Rooted(q, r) && Rooted(p, r) && IsTag(tag)
    ensures var h := HashedStaticAssetPath(q, tag);
            && (forall k: nat :: 0 < k < |p| ==> !(p[k..] <= q) && !Comparable(p[k..], h))
            && (forall k: nat :: 0 < k < |h| ==> !Comparable(h[k..], p))
  {
    var h := HashedStaticAssetPath(q, tag);
    RootInDirectory(q, r, tag);
    forall k: nat | 0 < k < |p|
      ensures !(p[k..] <= q) && !Comparable(p[k..], h)
    {
      if Comparable(p[k..], q) { ComparableThroughPrefix(p[k..], q, r); }
      if Comparable(p[k..], h) { ComparableThroughPrefix(p[k..], h, r); }
    }
    forall k: nat | 0 < k < |h|
      ensures !Comparable(h[k..], p)
    {
      RootNotInHashed(q, r, tag, k);
      if Comparable(h[k..], p) { ComparableThroughPrefix(h[k..], p, r); }
    }
  }

  /** Below one root, a pair is safe unless the later plain path is a prefix of the hashed path. */
  lemma RootedPairSafe(q: string, p: string, r: string, tag: string)
    requires IsRoot(r) && Rooted(q, r) && Rooted(p, r) && IsTag(tag)
    requires |p| <= |q| && !(p <= HashedStaticAssetPath(q, tag))
    ensures SafePair(q, HashedStaticAssetPath(q, tag), p)
  {
    hide HashedStaticAssetPath, Rooted, IsRoot, IsTag;
    var h := HashedStaticAssetPath(q, tag);
    HashedPathGrows(q, tag);
    RootedPairApart(q, p, r, tag);
    assert h[0..] == h;
  }

  ghost predicate NoPrefixPair(m: Manifest) {
    forall q, p :: q in m && p in m && Later(q, p) ==> !(p <= m[q])
  }

  lemma {:induction false} RootedNoPrefixPairIsClean(m: Manifest, r: string)
    requires IsRoot(r) && HashedNames(m) && NoPrefixPair(m)
    requires forall q :: q in m ==> Rooted(q, r)
    ensures Clean(m)
  {
    forall q, p | q in m && p in m && Later(q, p)
      ensures SafePair(q, m[q], p)
    {
      var tag :| IsTag(tag) && m[q] == HashedStaticAssetPath(q, tag);
      RootedPairSafe(q, p, r, tag);
    }
  }

  /** No plain path runs into or out of an earlier reference or its hashed path. */
  ghost predicate NoStraddle(m: Manifest) {
    forall q, p :: q in m && p in m && Later(q, p) ==>
      && (forall k: nat :: 0 < k < |p| ==> !(p[k..] <= q) && !Comparable(p[k..], m[q]))
      && (forall k: nat :: k < |m[q]| ==> !(m[q][k..] < p))
  }

  /** No plain path occurs in the hashed path of a reference listed before it. */
  ghost predicate NoneInside(m: Manifest) {
    forall q, p :: q in m && p in m && Later(q, p) ==> !Contains(m[q], p)
  }

  lemma ApartIsClean(m: Manifest)
    requires NoStraddle(m) && NoneInside(m)
    ensures Clean(m)
  {
    forall q, p | q in m && p in m && Later(q, p)
      ensures SafePair(q, m[q], p)
    {
      forall k: nat | k < |m[q]|
        ensures !Comparable(m[q][k..], p)
      {
        assert !OccursAt(m[q], p, k) && !(m[q][k..] < p);
      }
    }
  }

  /**
   Exact condition, over all texts: unless references straddle each other, the sequential longest-first
   loop is the simultaneous substitution if and only if no plain path occurs in the hashed path of a
   reference listed before it.
   */
  lemma {:induction false} SequentialIsSimultaneousIff(m: Manifest)
    requires "" !in m && NoStraddle(m) && forall k :: k in m ==> |k| < |m[k]|
    ensures (forall s :: Rewrite(s, m) == Substitute(s, m)) <==> NoneInside(m)
  {
    hide NoStraddle;
    if NoneInside(m) {
      ApartIsClean(m);
      forall s
        ensures Rewrite(s, m) == Substitute(s, m)
      {
        SequentialIsSimultaneous(s, m);
      }
    } else {
      var q, p :| q in m && p in m && Later(q, p) && Contains(m[q], p);
      OwnHashedPathIff(m, q);
      SubstituteWhole(q, m);
    }
  }

  lemma RootedMeansApart(m: Manifest, r: string)
    requires IsRoot(r) && HashedNames(m) && forall q :: q in m ==> Rooted(q, r)
    ensures "" !in m && NoStraddle(m) && (NoneInside(m) <==> NoPrefixPair(m))
  {
    hide HashedStaticAssetPath, IsRoot, IsTag;
    HashedNamesGrow(m);
    forall q, p | q in m && p in m && Later(q, p)
      ensures forall k: nat :: 0 < k < |p| ==> !(p[k..] <= q) && !Comparable(p[k..], m[q])
      ensures forall k: nat :: k < |m[q]| ==> !(m[q][k..] < p)
      ensures Contains(m[q], p) <==> p <= m[q]
    {
      var tag :| IsTag(tag) && m[q] == HashedStaticAssetPath(q, tag);
      RootedPairApart(q, p, r, tag);
      assert m[q][0..] == m[q];
      assert p <= m[q] ==> OccursAt(m[q], p, 0);
    }
  }

  /**
   The same for assets below one root, which never straddle: there the loop is the substitution if and
   only if no plain path is a prefix of the hashed path of a reference listed before it.
   */
  lemma {:induction false} RootedIff(m: Manifest, r: string)
    requires IsRoot(r) && HashedNames(m) && forall q :: q in m ==> Rooted(q, r)
    ensures "" !in m
    ensures (forall s :: Rewrite(s, m) == Substitute(s, m)) <==> NoPrefixPair(m)
  {
    hide Rooted, IsRoot, NoStraddle, NoneInside, NoPrefixPair;
    RootedMeansApart(m, r);
    HashedNamesGrow(m);
    SequentialIsSimultaneousIff(m);
  }
}
