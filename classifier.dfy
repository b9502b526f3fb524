/** The path classifier of codebase_to_text.py: is a path hidden, is it
    excluded by the pattern set, is it an image. A path under the traversal
    root is given as the root's own component list (the components of
    os.path.normpath of the root) and the list of entry names below it. */
module PathClassifier {
  import opened Strings
  import opened Glob
  import opened Wrappers

  /** What one converter instance classifies by: its pattern set and its
      exclude_hidden switch. */
  datatype Rules = Rules(patterns: set<string>, excludeHidden: bool)

  /** A name as a directory listing gives it: not empty and without `/`. */
  predicate ValidName(n: string) {
    n != "" && '/' !in n
  }

  predicate ValidRel(rel: seq<string>) {
    forall i :: 0 <= i < |rel| ==> ValidName(rel[i])
  }

  function Last(cs: seq<string>): string {
    if cs == [] then "" else cs[|cs| - 1]
  }

  /** `os.path.join(root, *rel)`: the path string os.walk hands out when
      the root is given in normal form (no trailing `/`, no leading `./`). */
  function PathString(root: seq<string>, rel: seq<string>): string {
    Join(root + rel, "/")
  }

  /** The path string of an entry below a directory starts with the
      directory's own path string. */
  lemma PathStringExtends(root: seq<string>, a: seq<string>, b: seq<string>)
    requires b != []
    ensures StartsWith(PathString(root, a + b), PathString(root, a))
  {
    var ra := root + a;
    assert root + (a + b) == ra + b;
    if ra != [] {
      JoinAppend(ra, b, "/");
      var x := Join(ra, "/");
      assert (x + "/" + Join(b, "/"))[..|x|] == x;
    }
  }

  /** The components of `os.path.normpath(os.path.join(root, *rel))`: a root
      spelled `.` disappears once a name is joined to it. */
  function FullPath(root: seq<string>, rel: seq<string>): (cs: seq<string>)
    ensures forall i :: 0 <= i < |rel| ==> rel[i] in cs
  {
    if root == ["."] && rel != [] then rel
    else
      assert forall i :: 0 <= i < |rel| ==> (root + rel)[|root| + i] == rel[i];
      root + rel
  }

  /** `_normalize_path`: the path relative to the root, `/`-separated; the
      root itself is `.`. */
  function NormalizedPath(rel: seq<string>): string {
    if rel == [] then "." else Join(rel, "/")
  }

  /** Below the root, the normalized path splits back into exactly the
      entry names it was built from, so the per-component tests see the
      path's own components. */
  lemma NormalizedPathComponents(rel: seq<string>)
    requires rel != [] && ValidRel(rel)
    ensures Split(NormalizedPath(rel), "/") == rel
  {
    SplitJoin(rel, '/');
  }

  /** `os.path.basename` of the walked path string. */
  function Basename(root: seq<string>, rel: seq<string>): string {
    if rel == [] then Last(root) else Last(rel)
  }

  /** `c.startswith((".", "__"))` */
  predicate HiddenName(c: string) {
    StartsWith(c, ".") || StartsWith(c, "__")
  }

  /** `_is_hidden_file`: the loop over the components of the normalized path. */
  predicate IsHiddenPath(cs: seq<string>) {
    cs != [] && (HiddenName(cs[0]) || IsHiddenPath(cs[1..]))
  }

  /** A path is hidden exactly when one of its components is. */
  lemma {:induction false} HiddenPathIff(cs: seq<string>)
    ensures IsHiddenPath(cs) <==> exists i :: 0 <= i < |cs| && HiddenName(cs[i])
  {
    if cs != [] {
      HiddenPathIff(cs[1..]);
      if exists i :: 0 <= i < |cs| && HiddenName(cs[i]) {
        var i :| 0 <= i < |cs| && HiddenName(cs[i]);
        if i > 0 {
          assert cs[1..][i - 1] == cs[i];
        }
      }
      if exists i :: 0 <= i < |cs[1..]| && HiddenName(cs[1..][i]) {
        var i :| 0 <= i < |cs[1..]| && HiddenName(cs[1..][i]);
        assert cs[i + 1] == cs[1..][i];
      }
    }
  }

  /** The loop of `_dir_pattern_match` over the parts. */
  predicate AnyPartMatches(parts: seq<string>, pat: string) {
    parts != [] && (Match(parts[0], pat) || AnyPartMatches(parts[1..], pat))
  }

  lemma {:induction false} AnyPartMatchesIff(parts: seq<string>, pat: string)
    ensures AnyPartMatches(parts, pat) <==> exists i :: 0 <= i < |parts| && Match(parts[i], pat)
  {
    if parts != [] {
      AnyPartMatchesIff(parts[1..], pat);
      if exists i :: 0 <= i < |parts| && Match(parts[i], pat) {
        var i :| 0 <= i < |parts| && Match(parts[i], pat);
        if i > 0 {
          assert parts[1..][i - 1] == parts[i];
        }
      }
      if exists i :: 0 <= i < |parts[1..]| && Match(parts[1..][i], pat) {
        var i :| 0 <= i < |parts[1..]| && Match(parts[1..][i], pat);
        assert parts[i + 1] == parts[1..][i];
      }
    }
  }

  /** `_dir_pattern_match(dir_pattern, normalized_path)` */
  predicate DirPatternMatch(dirPattern: string, normalizedPath: string) {
    AnyPartMatches(Split(normalizedPath, "/"), dirPattern)
  }

  /** `_recursive_pattern_match`'s rewrite of the pattern: every double star
      followed by a slash deleted, then every remaining double star turned
      into one star. */
  function RecursivePattern(p: string): string {
    ReplaceAll(ReplaceAll(p, "**/", ""), "**", "*")
  }

  /** The loop of `_recursive_pattern_match` over i in range(len(parts)). */
  predicate AnySuffixMatches(parts: seq<string>, rp: string, i: nat)
    decreases |parts| - i
  {
    i < |parts| && (Match(Join(parts[i..], "/"), rp) || AnySuffixMatches(parts, rp, i + 1))
  }

  lemma {:induction false} AnySuffixMatchesIff(parts: seq<string>, rp: string, i: nat)
    ensures AnySuffixMatches(parts, rp, i)
            <==> exists k :: i <= k < |parts| && Match(Join(parts[k..], "/"), rp)
    decreases |parts| - i
  {
    if i < |parts| {
      AnySuffixMatchesIff(parts, rp, i + 1);
    }
  }

  /** `_recursive_pattern_match(pattern, normalized_path)` */
  predicate RecursivePatternMatch(p: string, normalizedPath: string) {
    var rp := RecursivePattern(p);
    Match(normalizedPath, rp) || AnySuffixMatches(Split(normalizedPath, "/"), rp, 0)
  }

  /** The first test of `_recursive_pattern_match` is its suffix 0: the
      rewritten glob is tried on every suffix of the component list and on
      nothing else. */
  lemma RecursiveIsSuffixSearch(p: string, path: string)
    ensures var parts := Split(path, "/");
            RecursivePatternMatch(p, path)
            <==> exists k :: 0 <= k < |parts| && Match(Join(parts[k..], "/"), RecursivePattern(p))
  {
    var parts := Split(path, "/");
    var rp := RecursivePattern(p);
    AnySuffixMatchesIff(parts, rp, 0);
    assert parts[0..] == parts;
    assert Join(parts[0..], "/") == path;
    if Match(path, rp) {
      assert Match(Join(parts[0..], "/"), rp);
    }
    assert parts == Split(path, "/");
  }

  /** `_pattern_matches(pattern, normalized_path, filename)` */
  predicate PatternMatches(p: string, normalizedPath: string, filename: string) {
    || Match(filename, p)
    || Match(normalizedPath, p)
    || (EndsWith(p, "/") && DirPatternMatch(RStripChar(p, '/'), normalizedPath))
    || (Contains(p, "**") && RecursivePatternMatch(p, normalizedPath))
  }

  /** `_should_exclude(file_path, base_path)` */
  predicate ShouldExclude(r: Rules, root: seq<string>, rel: seq<string>) {
    if r.patterns == {} then false
    else if r.excludeHidden && IsHiddenPath(FullPath(root, rel)) then true
    else exists p :: p in r.patterns && PatternMatches(p, NormalizedPath(rel), Basename(root, rel))
  }

  /** The four tests of one pattern, stated on the component list of a path
      below the root instead of on its joined string. */
  predicate HitsComponents(p: string, rel: seq<string>) {
    || Match(Last(rel), p)
    || Match(Join(rel, "/"), p)
    || (EndsWith(p, "/") && exists i :: 0 <= i < |rel| && Match(rel[i], RStripChar(p, '/')))
    || (Contains(p, "**")
        && exists k :: 0 <= k < |rel| && Match(Join(rel[k..], "/"), RecursivePattern(p)))
  }

  lemma PatternMatchesComponents(p: string, root: seq<string>, rel: seq<string>)
    requires rel != [] && ValidRel(rel)
    ensures PatternMatches(p, NormalizedPath(rel), Basename(root, rel)) <==> HitsComponents(p, rel)
  {
    SplitJoin(rel, '/');
    AnyPartMatchesIff(rel, RStripChar(p, '/'));
    RecursiveIsSuffixSearch(p, Join(rel, "/"));
  }

  /** `_should_exclude` below the root: with no patterns nothing is excluded;
      with exclude_hidden a path with a hidden component is excluded before
      any pattern is tried; otherwise a path is excluded exactly when one of
      the four tests of some pattern hits its components. */
  lemma {:induction false} ShouldExcludeRule(r: Rules, root: seq<string>, rel: seq<string>)
    requires rel != [] && ValidRel(rel)
    ensures r.patterns == {} ==> !ShouldExclude(r, root, rel)
    ensures r.patterns != {} && r.excludeHidden && (exists i :: 0 <= i < |rel| && HiddenName(rel[i]))
            ==> ShouldExclude(r, root, rel)
    ensures r.patterns != {} && !(r.excludeHidden && IsHiddenPath(FullPath(root, rel)))
            ==> (ShouldExclude(r, root, rel) <==> exists p :: p in r.patterns && HitsComponents(p, rel))
  {
    HiddenPathIff(FullPath(root, rel));
    forall p | p in r.patterns
      ensures PatternMatches(p, NormalizedPath(rel), Basename(root, rel)) <==> HitsComponents(p, rel)
    {
      PatternMatchesComponents(p, root, rel);
    }
  }

  /** A directory-style pattern `name/` excludes every path that has a
      component matching name, at any depth: `venv/` excludes
      `venv/lib/python3.9`. */
  lemma DirPatternExcludesAtAnyDepth(r: Rules, root: seq<string>, rel: seq<string>, name: string, i: nat)
    requires name + "/" in r.patterns
    requires name == [] || name[|name| - 1] != '/'
    requires rel != [] && ValidRel(rel) && i < |rel| && Match(rel[i], name)
    ensures ShouldExclude(r, root, rel)
  {
    var p := name + "/";
    assert RStripChar(p, '/') == name by {
      assert p[..|p| - 1] == name;
    }
    assert EndsWith(p, "/");
    assert HitsComponents(p, rel);
    ShouldExcludeRule(r, root, rel);
  }

  /** The two shapes of recursive pattern the defaults use (name, a slash
      and a double star; the same with a double star and a slash in front)
      both rewrite to name, a slash and one star. */
  lemma RecursivePatternOfName(name: string)
    requires Literal(name)
    ensures RecursivePattern(name + "/**") == name + "/*"
    ensures RecursivePattern("**/" + name + "/**") == name + "/*"
  {
    assert '*' !in name by {
      forall k | 0 <= k < |name| ensures name[k] != '*' { }
    }
    ReplaceAllKeepsPrefix(name, "/**", "**/", "");
    assert ReplaceAll("/**", "**/", "") == "/**" by {
      assert !StartsWith("/**", "**/");
      assert ReplaceAll("**", "**/", "") == "**" by {
        assert !StartsWith("**", "**/");
        assert !StartsWith("*", "**/");
        assert ReplaceAll("*", "**/", "") == "*";
      }
    }
    ReplaceAllKeepsPrefix(name, "/**", "**", "*");
    assert ReplaceAll("/**", "**", "*") == "/*" by {
      assert !StartsWith("/**", "**");
      assert "/**"[1..] == "**";
      assert ReplaceAll("**", "**", "*") == "*";
    }
    var full := "**/" + name + "/**";
    assert StartsWith(full, "**/");
    assert full[3..] == name + "/**";
    assert ReplaceAll(full, "**/", "") == ReplaceAll(name + "/**", "**/", "");
  }

  /** Those two recursive shapes exclude everything inside a directory
      called name, at any depth (the directory itself is left to the
      directory-style pattern `name/`): the default for `__pycache__`
      excludes `src/utils/__pycache__/file.pyc`. */
  lemma RecursivePatternExcludesInside(r: Rules, root: seq<string>, a: seq<string>, name: string, b: seq<string>)
    requires name + "/**" in r.patterns || "**/" + name + "/**" in r.patterns
    requires Literal(name)
    requires b != [] && ValidRel(a + [name] + b)
    ensures ShouldExclude(r, root, a + [name] + b)
  {
    var rel := a + [name] + b;
    var p := if name + "/**" in r.patterns then name + "/**" else "**/" + name + "/**";
    RecursivePatternOfName(name);
    assert OccursAt(p, "**", |p| - 2);
    FindSpec(p, "**");
    assert Contains(p, "**");
    var k := |a|;
    assert rel[k..] == [name] + b;
    assert Join(rel[k..], "/") == name + "/" + Join(b, "/");
    assert Literal(name + "/");
    PrefixStar(name + "/" + Join(b, "/"), name + "/");
    assert (name + "/") + "*" == name + "/*";
    assert (name + "/" + Join(b, "/"))[..|name + "/"|] == name + "/";
    assert Match(Join(rel[k..], "/"), RecursivePattern(p));
    assert HitsComponents(p, rel);
    ShouldExcludeRule(r, root, rel);
  }

  /** A suffix glob `*` + lit excludes every path whose last name ends with
      lit: `*.log` excludes `logs/app.log`, `*.py` excludes `test.py`. */
  lemma SuffixGlobExcludes(r: Rules, root: seq<string>, rel: seq<string>, lit: string)
    requires "*" + lit in r.patterns && Literal(lit)
    requires rel != [] && ValidRel(rel) && EndsWith(Last(rel), lit)
    ensures ShouldExclude(r, root, rel)
  {
    StarSuffix(Last(rel), lit);
    assert HitsComponents("*" + lit, rel);
    ShouldExcludeRule(r, root, rel);
  }

  /** With exclude_hidden the root's own components count as well: a root
      spelled `.` is hidden, so the walk excludes the root itself. */
  lemma DotRootIsHidden(r: Rules)
    requires r.patterns != {} && r.excludeHidden
    ensures ShouldExclude(r, ["."], [])
  {
  }

  /** A star followed by a literal holds no double star. */
  lemma StarLiteralHasNoDoubleStar(lit: string)
    requires Literal(lit)
    ensures !Contains("*" + lit, "**")
  {
    var p := "*" + lit;
    forall j | 0 <= j ensures !OccursAt(p, "**", j) {
      if j + 2 <= |p| {
        assert p[j..j + 2][1] == p[j + 1] == lit[j];
      }
    }
    FindSpec(p, "**");
  }

  /** What a set of `*` + suffix patterns, such as `*.py` and `*.log`,
      excludes among the entries directly under the root (exclude_hidden
      off): exactly the names that end with one of the suffixes. */
  lemma SuffixGlobsExcludeBySuffix(r: Rules, root: seq<string>, sufs: set<string>, name: string)
    requires !r.excludeHidden
    requires forall lit :: lit in sufs ==> Literal(lit) && !EndsWith(lit, "/")
    requires r.patterns == set lit | lit in sufs :: "*" + lit
    requires ValidName(name)
    ensures ShouldExclude(r, root, [name]) <==> exists lit :: lit in sufs && EndsWith(name, lit)
  {
    assert NormalizedPath([name]) == name;
    assert Basename(root, [name]) == name;
    forall lit | lit in sufs
      ensures PatternMatches("*" + lit, name, name) <==> EndsWith(name, lit)
    {
      StarSuffix(name, lit);
      StarLiteralHasNoDoubleStar(lit);
      assert ("*" + lit)[|"*" + lit| - 1..] == (if lit == [] then "*" else lit[|lit| - 1..]);
    }
    if exists lit :: lit in sufs && EndsWith(name, lit) {
      var lit :| lit in sufs && EndsWith(name, lit);
      assert "*" + lit in r.patterns;
    }
    if ShouldExclude(r, root, [name]) {
      var p :| p in r.patterns && PatternMatches(p, name, name);
      var lit :| lit in sufs && p == "*" + lit;
    }
  }

  /** The index of the last `.` in s. */
  function LastDot(s: string): (r: Option<nat>)
    ensures r.Some? ==> r.value < |s| && s[r.value] == '.'
                        && forall k :: r.value < k < |s| ==> s[k] != '.'
    ensures r.None? ==> forall k :: 0 <= k < |s| ==> s[k] != '.'
  {
    if s == [] then None
    else if s[|s| - 1] == '.' then Some(|s| - 1)
    else LastDot(s[..|s| - 1])
  }

  /** `os.path.splitext(path)[1]` for a path whose last component is name:
      from the last `.` on, unless only dots come before that `.`. */
  function Extension(name: string): (ext: string)
    ensures ext != [] ==> && ext[0] == '.' && EndsWith(name, ext)
                          && (forall k :: 1 <= k < |ext| ==> ext[k] != '.')
                          && (exists k :: 0 <= k < |name| - |ext| && name[k] != '.')
    ensures ext == [] ==> forall k, j :: 0 <= j < k < |name| && name[k] == '.' ==> name[j] == '.'
  {
    match LastDot(name)
    case None => ""
    case Some(d) =>
      if exists k :: 0 <= k < d && name[k] != '.' then
        assert forall k :: 1 <= k < |name[d..]| ==> name[d..][k] == name[d + k];
        name[d..]
      else ""
  }

  /** The image extensions of the converter. */
  const ImageExtensions: set<string> := {".png", ".jpg", ".jpeg", ".gif", ".bmp", ".tiff"}

  /** `_is_image_file`: the extension, lower-cased, is an image extension. */
  predicate IsImageFile(name: string) {
    AsciiLower(Extension(name)) in ImageExtensions
  }

  /** `is_github_repo` */
  predicate IsGithubRepo(input: string) {
    StartsWith(input, "https://github.com/") || StartsWith(input, "git@github.com:")
  }

  /** The last `.` of stem + ext is the one that starts ext, when ext
      holds no other. */
  lemma LastDotOfSuffix(stem: string, ext: string)
    requires ext != [] && ext[0] == '.' && forall k :: 1 <= k < |ext| ==> ext[k] != '.'
    ensures LastDot(stem + ext) == Some(|stem|)
  {
    var s := stem + ext;
    assert s[|stem|] == '.';
  }

  /** splitext and the image test on a name made of a stem that is not
      only dots and an extension: the extension is recovered, and the name
      is an image exactly when the extension, lower-cased, is one of the
      image extensions (`logo.PNG` is an image, `notes.txt` is not). */
  lemma ImageExtensionOfName(stem: string, ext: string)
    requires exists k :: 0 <= k < |stem| && stem[k] != '.'
    requires ext != [] && ext[0] == '.' && forall k :: 1 <= k < |ext| ==> ext[k] != '.'
    ensures Extension(stem + ext) == ext
    ensures IsImageFile(stem + ext) <==> AsciiLower(ext) in ImageExtensions
  {
    var s := stem + ext;
    LastDotOfSuffix(stem, ext);
    var k :| 0 <= k < |stem| && stem[k] != '.';
    assert s[k] != '.';
    assert s[|stem|..] == ext;
  }

  /** Both address forms are recognised whatever follows them, and a path
      that starts with neither `h` nor `g` (`./project`, `/home/me/src`) is
      never taken for a repository address. */
  lemma GithubAddresses(rest: string, local: string)
    requires local != [] && local[0] != 'h' && local[0] != 'g'
    ensures IsGithubRepo("https://github.com/" + rest)
    ensures IsGithubRepo("git@github.com:" + rest)
    ensures !IsGithubRepo(local)
  {
  }
}
