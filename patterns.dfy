/** The exclusion pattern set of the converter and the three sources it is
    assembled from: the comma-separated `--exclude` strings, the fixed
    defaults and the lines of a `.exclude` file. */
module PatternStore {
  import opened Wrappers
  import opened Strings

  /** The defaults `_add_default_patterns` adds. */
  const DefaultPatterns: set<string> := {
    ".git/", ".git/**",
    "__pycache__/", "**/__pycache__/**",
    "*.pyc", "*.pyo", "*.pyd",
    ".venv/", "venv/", "env/",
    "node_modules/",
    ".DS_Store",
    "*.log", "*.tmp",
    ".pytest_cache/",
    ".coverage",
    "build/", "dist/",
    "*.egg-info/"
  }

  /** The union of what f gives for each element of xs. The three
      pattern sources are each read element by element into one set, so
      each of them is such a union. */
  function UnionOf(xs: seq<string>, f: string -> set<string>): set<string> {
    if xs == [] then {} else UnionOf(xs[..|xs| - 1], f) + f(xs[|xs| - 1])
  }

  /** A string is in the union exactly when f gives it for some element. */
  lemma {:induction false} UnionOfIff(xs: seq<string>, f: string -> set<string>, p: string)
    ensures p in UnionOf(xs, f) <==> exists k :: 0 <= k < |xs| && p in f(xs[k])
  {
    if xs != [] {
      var n := |xs| - 1;
      UnionOfIff(xs[..n], f, p);
      assert forall k :: 0 <= k < n ==> xs[..n][k] == xs[k];
      if p in f(xs[n]) {
        assert 0 <= n < |xs| && p in f(xs[n]);
      }
    }
  }

  /** Reading one more element adds what f gives for it. */
  lemma UnionOfPrefix(xs: seq<string>, i: nat, f: string -> set<string>)
    requires i < |xs|
    ensures UnionOf(xs[..i + 1], f) == UnionOf(xs[..i], f) + f(xs[i])
  {
    assert xs[..i + 1][..i] == xs[..i];
  }

  /** The union over a concatenation is the union of the two unions. */
  lemma UnionOfAppend(a: seq<string>, b: seq<string>, f: string -> set<string>)
    ensures UnionOf(a + b, f) == UnionOf(a, f) + UnionOf(b, f)
  {
    var ab := a + b;
    forall p ensures p in UnionOf(ab, f) <==> p in UnionOf(a, f) || p in UnionOf(b, f) {
      UnionOfIff(ab, f, p);
      UnionOfIff(a, f, p);
      UnionOfIff(b, f, p);
      if p in UnionOf(ab, f) {
        var k :| 0 <= k < |ab| && p in f(ab[k]);
        if k < |a| {
          assert ab[k] == a[k];
        } else {
          assert ab[k] == b[k - |a|];
        }
      }
      if p in UnionOf(a, f) {
        var k :| 0 <= k < |a| && p in f(a[k]);
        assert ab[k] == a[k];
      }
      if p in UnionOf(b, f) {
        var k :| 0 <= k < |b| && p in f(b[k]);
        assert ab[|a| + k] == b[k];
      }
    }
  }

  lemma UnionOfSingle(x: string, f: string -> set<string>)
    ensures UnionOf([x], f) == f(x)
  {
    assert [x][..0] == [];
  }

  lemma UnionOfPair(x: string, y: string, f: string -> set<string>)
    ensures UnionOf([x, y], f) == f(x) + f(y)
  {
    UnionOfAppend([x], [y], f);
    UnionOfSingle(x, f);
    UnionOfSingle(y, f);
    assert [x] + [y] == [x, y];
  }

  /** A union depends only on which elements occur, not on their order or
      repetition. */
  lemma UnionOfSameElements(a: seq<string>, b: seq<string>, f: string -> set<string>)
    requires forall x :: x in a <==> x in b
    ensures UnionOf(a, f) == UnionOf(b, f)
  {
    forall p ensures p in UnionOf(a, f) <==> p in UnionOf(b, f) {
      UnionOfIff(a, f, p);
      UnionOfIff(b, f, p);
      if p in UnionOf(a, f) {
        var i :| 0 <= i < |a| && p in f(a[i]);
        assert a[i] in b;
        var j :| 0 <= j < |b| && b[j] == a[i];
      }
      if p in UnionOf(b, f) {
        var j :| 0 <= j < |b| && p in f(b[j]);
        assert b[j] in a;
        var i :| 0 <= i < |a| && a[i] == b[j];
      }
    }
  }

  /** What one comma-separated piece of an `--exclude` string contributes:
      the piece stripped, unless that is empty. */
  function PiecePattern(piece: string): set<string> {
    if Strip(piece) != "" then {Strip(piece)} else {}
  }

  /** The patterns one `--exclude` string holds. */
  function ArgPatterns(arg: string): set<string> {
    UnionOf(Split(arg, ","), PiecePattern)
  }

  /** The patterns `_add_cli_patterns` adds for the `--exclude` strings
      args, in order; an absent option is the empty list. */
  function CliPatterns(args: seq<string>): set<string> {
    UnionOf(args, ArgPatterns)
  }

  /** The pattern a `.exclude` line contributes: the stripped line, unless
      it is empty or a `#` comment. */
  function LinePattern(line: string): set<string> {
    var t := Strip(line);
    if t != "" && !StartsWith(t, "#") then {t} else {}
  }

  /** The patterns `_add_file_patterns` adds for the text of a `.exclude`
      file, read line by line. */
  function FilePatterns(content: string): set<string> {
    UnionOf(Split(content, "\n"), LinePattern)
  }

  /** The pattern set after construction. `excludeFile` is the text of the
      `.exclude` file, or None when there is none. */
  function AssembledPatterns(args: seq<string>, excludeFile: Option<string>): set<string> {
    CliPatterns(args) + DefaultPatterns
    + (match excludeFile case None => {} case Some(content) => FilePatterns(content))
  }

  /** The assembled set always holds the defaults, so it is never empty,
      and it holds what every `--exclude` string and the `.exclude` file
      contribute. */
  lemma AssembledPatternsHoldAllSources(args: seq<string>, excludeFile: Option<string>)
    ensures DefaultPatterns <= AssembledPatterns(args, excludeFile)
    ensures AssembledPatterns(args, excludeFile) != {}
    ensures forall i :: 0 <= i < |args| ==> ArgPatterns(args[i]) <= AssembledPatterns(args, excludeFile)
    ensures excludeFile.Some? ==> FilePatterns(excludeFile.value) <= AssembledPatterns(args, excludeFile)
  {
    assert ".git/" in AssembledPatterns(args, excludeFile);
    forall i, p | 0 <= i < |args| && p in ArgPatterns(args[i]) ensures p in CliPatterns(args) {
      UnionOfIff(args, ArgPatterns, p);
    }
  }

  /** Only which `--exclude` strings were passed matters, not their order
      or how often each one was repeated. */
  lemma CliOrderIrrelevant(a: seq<string>, b: seq<string>)
    requires forall x :: x in a <==> x in b
    ensures CliPatterns(a) == CliPatterns(b)
  {
    UnionOfSameElements(a, b, ArgPatterns);
  }

  /** An `--exclude` string is read piece by piece up to each comma. */
  lemma ArgPatternsAtComma(x: string, y: string)
    requires ',' !in x
    ensures ArgPatterns(x + "," + y) == PiecePattern(x) + ArgPatterns(y)
  {
    SplitAtChar(x, ',', y);
    UnionOfAppend([x], Split(y, ","), PiecePattern);
    UnionOfSingle(x, PiecePattern);
  }

  /** An `--exclude` string without a comma is a single piece. */
  lemma ArgPatternsNoComma(x: string)
    requires ',' !in x
    ensures ArgPatterns(x) == PiecePattern(x)
  {
    FindAbsentChar(x, ',');
    assert Split(x, ",") == [x];
    UnionOfSingle(x, PiecePattern);
  }

  /** The patterns of `x,y` are those of x and those of y. */
  lemma ArgPatternsComma(x: string, y: string)
    requires ',' !in x
    ensures ArgPatterns(x + "," + y) == ArgPatterns(x) + ArgPatterns(y)
  {
    ArgPatternsAtComma(x, y);
    ArgPatternsNoComma(x);
  }

  /** `--exclude "x,y"` gives what `--exclude x --exclude y` gives. */
  lemma CommaIsSeparateFlags(x: string, y: string)
    requires ',' !in x
    ensures CliPatterns([x + "," + y]) == CliPatterns([x, y])
  {
    UnionOfSingle(x + "," + y, ArgPatterns);
    UnionOfPair(x, y, ArgPatterns);
    ArgPatternsComma(x, y);
  }

  /** A `.exclude` file without a newline is a single line. */
  lemma FilePatternsOneLine(line: string)
    requires '\n' !in line
    ensures FilePatterns(line) == LinePattern(line)
  {
    FindAbsentChar(line, '\n');
    assert Split(line, "\n") == [line];
    UnionOfSingle(line, LinePattern);
  }

  /** A pattern with no surrounding whitespace, no comma, no newline and no
      leading `#` counts the same whether it is passed with `--exclude` or
      written as the `.exclude` file. */
  lemma SourceIrrelevant(args: seq<string>, p: string)
    requires p != "" && Unpadded(p) && p[0] != '#' && ',' !in p && '\n' !in p
    ensures AssembledPatterns(args + [p], None) == AssembledPatterns(args, Some(p))
  {
    ArgPatternsNoComma(p);
    FilePatternsOneLine(p);
    PatternLine(p);
    StripUnpadded(p);
    UnionOfAppend(args, [p], ArgPatterns);
    UnionOfSingle(p, ArgPatterns);
  }

  /** The lines of a `.exclude` file are read one at a time, so a file is
      the union of its lines. */
  lemma FileLinesUnion(line: string, rest: string)
    requires '\n' !in line
    ensures FilePatterns(line + "\n" + rest) == LinePattern(line) + FilePatterns(rest)
  {
    SplitAtChar(line, '\n', rest);
    UnionOfAppend([line], Split(rest, "\n"), LinePattern);
    UnionOfSingle(line, LinePattern);
  }

  /** Comment lines and blank lines add nothing. */
  lemma CommentsAndBlanksIgnored(line: string)
    requires StartsWith(Strip(line), "#") || forall k :: 0 <= k < |line| ==> IsSpace(line[k])
    ensures LinePattern(line) == {}
  {
    if !StartsWith(Strip(line), "#") {
      StripAllSpace(line);
    }
  }

  /** A line holding just a pattern yields that pattern. */
  lemma PatternLine(t: string)
    requires t != "" && Unpadded(t) && t[0] != '#'
    ensures LinePattern(t) == {t}
  {
    StripUnpadded(t);
  }

  /** A line starting with `#` yields nothing. */
  lemma CommentLine(c: string)
    requires c != "" && c[0] == '#'
    ensures LinePattern(c) == {}
  {
    StripKeepsFirst(c);
  }

  lemma CommentedFileShape(c: string, t: string)
    ensures c + "\n\n" + t + "\n" == c + "\n" + ("" + "\n" + (t + "\n" + ""))
  {
    var lhs := c + "\n\n" + t + "\n";
    var rhs := c + "\n" + ("" + "\n" + (t + "\n" + ""));
    assert |lhs| == |rhs|;
    forall i | 0 <= i < |lhs| ensures lhs[i] == rhs[i] {
      if i < |c| + 2 {
      } else if i < |c| + 2 + |t| {
      }
    }
  }

  /** A pattern line ended by a newline. */
  lemma PatternThenNewline(pattern: string)
    requires pattern != "" && Unpadded(pattern) && pattern[0] != '#' && '\n' !in pattern
    ensures FilePatterns(pattern + "\n" + "") == {pattern}
  {
    FileLinesUnion(pattern, "");
    FilePatternsOneLine("");
    PatternLine(pattern);
  }

  /** A blank first line adds nothing. */
  lemma BlankFirstLine(rest: string)
    ensures FilePatterns("" + "\n" + rest) == FilePatterns(rest)
  {
    var blank := "";
    assert LinePattern(blank) == {} by {
      StripAllSpace(blank);
    }
    FileLinesUnion(blank, rest);
  }

  /** A `.exclude` file holding a comment line, a blank line and one
      pattern line yields that pattern alone. */
  lemma CommentedExcludeFile(comment: string, pattern: string)
    requires comment != "" && comment[0] == '#' && '\n' !in comment
    requires pattern != "" && Unpadded(pattern) && pattern[0] != '#' && '\n' !in pattern
    ensures FilePatterns(comment + "\n\n" + pattern + "\n") == {pattern}
  {
    PatternThenNewline(pattern);
    BlankFirstLine(pattern + "\n" + "");
    CommentedFileShape(comment, pattern);
    FileLinesUnion(comment, "" + "\n" + (pattern + "\n" + ""));
    CommentLine(comment);
  }
}
