/** The converter object of codebase_to_text.py: it assembles its
    exclusion patterns when it is built, then walks the tree twice, once
    for the folder structure and once for the file contents, and lays the
    two out as one document, written as text or as a Word file. */
module Converter {
  import opened Wrappers
  import opened Strings
  import opened PatternStore
  import opened PathClassifier
  import opened TreeWalker
  import opened Layout

  /** How many of the visited frames vs are themselves excluded. */
  function CountExcluded(r: Rules, root: seq<string>, vs: seq<Frame>): (n: nat)
    ensures n <= |vs|
  {
    if vs == [] then 0
    else CountExcluded(r, root, vs[..|vs| - 1]) + (if ShouldExclude(r, root, vs[|vs| - 1].rel) then 1 else 0)
  }

  /** The child directories and files of v that the tree pass drops by a
      pattern (what it counts in verbose mode). */
  function FrameVerboseCount(r: Rules, root: seq<string>, v: Frame): nat {
    (|v.dir.dirs| - |KeptDirs(r, root, ContentPruning, v.rel, v.dir.dirs)|)
    + (|v.dir.files| - |KeptFiles(r, root, v.rel, v.dir.files)|)
  }

  function VerboseCount(r: Rules, root: seq<string>, vs: seq<Frame>): nat {
    if vs == [] then 0
    else VerboseCount(r, root, vs[..|vs| - 1]) + FrameVerboseCount(r, root, vs[|vs| - 1])
  }

  /** What one run of `_parse_folder` adds to `excluded_files_count`. When
      the root is excluded no child list is filtered, so the walk reaches
      every directory, and each one that is itself excluded is counted at
      `_handle_excluded_directory`. Otherwise nothing excluded is ever
      visited, and only verbose mode counts the children it drops. */
  function TreeExclusions(r: Rules, root: seq<string>, verbose: bool, top: Dir): nat {
    if ShouldExclude(r, root, []) then CountExcluded(r, root, Visits(r, root, NoPruning, Frame([], top)))
    else if verbose then VerboseCount(r, root, Visits(r, root, TreePruning, Frame([], top)))
    else 0
  }

  lemma {:induction false} CountExcludedHits(r: Rules, root: seq<string>, vs: seq<Frame>, i: nat)
    requires i < |vs| && ShouldExclude(r, root, vs[i].rel)
    ensures CountExcluded(r, root, vs) >= 1
  {
    if i < |vs| - 1 {
      assert vs[..|vs| - 1][i] == vs[i];
      CountExcludedHits(r, root, vs[..|vs| - 1], i);
    }
  }

  /** An excluded root is always counted, verbose or not; with the root
      kept and verbose off nothing is counted. */
  lemma TreeExclusionsBounds(r: Rules, root: seq<string>, verbose: bool, top: Dir)
    ensures ShouldExclude(r, root, []) ==> 1 <= TreeExclusions(r, root, verbose, top)
    ensures ShouldExclude(r, root, [])
            ==> TreeExclusions(r, root, verbose, top) <= |Visits(r, root, NoPruning, Frame([], top))|
    ensures !ShouldExclude(r, root, []) && !verbose ==> TreeExclusions(r, root, verbose, top) == 0
  {
    if ShouldExclude(r, root, []) {
      CountExcludedHits(r, root, Visits(r, root, NoPruning, Frame([], top)), 0);
    }
  }

  /** `_skip_excluded_dir`: some recorded excluded root is a string prefix
      of the path. */
  predicate SkipExcludedDir(path: string, excludedDirs: set<string>) {
    exists e :: e in excludedDirs && StartsWith(path, e)
  }

  /** The state of a walk whose root is kept: nothing is recorded as
      pruned and no pending frame is excluded, because every pending frame
      passed the child filter of its parent. */
  ghost predicate KeptWalk(r: Rules, root: seq<string>, stack: seq<Frame>, excludedDirs: set<string>) {
    && excludedDirs == {}
    && forall i :: 0 <= i < |stack| ==> !ShouldExclude(r, root, stack[i].rel)
  }

  /** The state of a walk whose root is excluded: before the first step
      only the root is pending; after it the root's path is recorded and
      every pending frame lies strictly below the root. */
  ghost predicate PrunedWalk(root: seq<string>, top: Dir, done: seq<Frame>, stack: seq<Frame>, excludedDirs: set<string>) {
    && (done == [] ==> stack == [Frame([], top)])
    && (done != [] ==> PathString(root, []) in excludedDirs && forall i :: 0 <= i < |stack| ==> stack[i].rel != [])
  }

  lemma CountExcludedStep(r: Rules, root: seq<string>, done: seq<Frame>, v: Frame)
    ensures CountExcluded(r, root, done + [v])
            == CountExcluded(r, root, done) + (if ShouldExclude(r, root, v.rel) then 1 else 0)
  {
  }

  lemma VerboseCountStep(r: Rules, root: seq<string>, done: seq<Frame>, v: Frame)
    ensures VerboseCount(r, root, done + [v]) == VerboseCount(r, root, done) + FrameVerboseCount(r, root, v)
  {
  }

  /** A frame the walk skips (excluded itself, or under a recorded
      excluded path) can only come up when the root is excluded, and the
      walk stays in the excluded-root state after it. */
  lemma PrunedWalkStep(r: Rules, root: seq<string>, top: Dir, done: seq<Frame>, stack: seq<Frame>,
                       wasDirs: set<string>, dirs: set<string>, topExcluded: bool)
    requires stack != [] && topExcluded == ShouldExclude(r, root, [])
    requires !topExcluded ==> KeptWalk(r, root, stack, wasDirs)
    requires topExcluded ==> PrunedWalk(root, top, done, stack, wasDirs)
    requires dirs == if ShouldExclude(r, root, stack[0].rel) then wasDirs + {PathString(root, stack[0].rel)} else wasDirs
    requires ShouldExclude(r, root, stack[0].rel) || SkipExcludedDir(PathString(root, stack[0].rel), dirs)
    ensures topExcluded
    ensures PrunedWalk(root, top, done + [stack[0]], Frames(stack[0].rel, stack[0].dir.dirs) + stack[1..], dirs)
  {
  }

  /** A frame the walk does not skip can only come up when the root is
      kept: once the root is excluded, every later frame lies under its
      recorded path. */
  lemma PrunedWalkVisitsNothing(r: Rules, root: seq<string>, top: Dir, done: seq<Frame>, stack: seq<Frame>,
                                dirs: set<string>, topExcluded: bool)
    requires stack != [] && topExcluded == ShouldExclude(r, root, [])
    requires topExcluded ==> PrunedWalk(root, top, done, stack, dirs)
    requires !ShouldExclude(r, root, stack[0].rel) && !SkipExcludedDir(PathString(root, stack[0].rel), dirs)
    ensures !topExcluded
  {
    if topExcluded && done != [] {
      var rel := stack[0].rel;
      assert [] + rel == rel;
      PathStringExtends(root, [], rel);
    }
  }

  /** The children a kept directory keeps are not excluded, so the walk
      stays in the kept-root state. */
  lemma KeptWalkStep(r: Rules, root: seq<string>, stack: seq<Frame>, dirs: set<string>, kept: seq<Dir>)
    requires stack != [] && KeptWalk(r, root, stack, dirs)
    requires kept == KeptDirs(r, root, TreePruning, stack[0].rel, stack[0].dir.dirs)
             || kept == KeptDirs(r, root, ContentPruning, stack[0].rel, stack[0].dir.dirs)
    ensures KeptWalk(r, root, Frames(stack[0].rel, kept) + stack[1..], dirs)
  {
    var kids := Frames(stack[0].rel, kept);
    forall i | 0 <= i < |kids + stack[1..]| ensures !ShouldExclude(r, root, (kids + stack[1..])[i].rel) {
      if i < |kids| {
        KeptDirsMembers(r, root, TreePruning, stack[0].rel, stack[0].dir.dirs, kept[i]);
        KeptDirsMembers(r, root, ContentPruning, stack[0].rel, stack[0].dir.dirs, kept[i]);
        assert kept[i] in kept;
      } else {
        assert (kids + stack[1..])[i] == stack[1 + (i - |kids|)];
      }
    }
  }

  /** What either walk of the converter leaves out, whatever the tree and
      the patterns: no directory it visits has an excluded directory on
      its way down from the root, so excluding a directory hides all of
      its descendants; and with exclude_hidden and a non-empty pattern set
      no directory it visits has a hidden name on that way. */
  lemma WalkNeverEntersExcluded(r: Rules, root: seq<string>, top: Dir, pr: Pruning, v: Frame)
    requires pr == TreePruning || pr == ContentPruning
    requires v in Visits(r, root, pr, Frame([], top))
    ensures forall j :: 0 < j <= |v.rel| ==> !ShouldExclude(r, root, v.rel[..j])
    ensures r.patterns != {} && r.excludeHidden ==> forall i :: 0 <= i < |v.rel| ==> !HiddenName(v.rel[i])
  {
    VisitedIff(r, root, pr, top, v);
    if r.patterns != {} && r.excludeHidden {
      forall i | 0 <= i < |v.rel| ensures !HiddenName(v.rel[i]) {
        var p := v.rel[..i + 1];
        assert !ShouldExclude(r, root, p);
        var cs := FullPath(root, p);
        assert p[i] in cs;
        HiddenPathIff(cs);
      }
    }
  }

  /** What `get_file` produces for the output type: the text itself, the
      blocks of the Word document, or the error it raises. */
  function OutputFor(outputType: string, text: string): (out: Result<Output, string>)
    ensures out.Failure? <==> outputType != "txt" && outputType != "docx"
    ensures out.Failure? ==> out.error == InvalidOutputType
    ensures outputType == "txt" ==> out == Success(TextFile(text))
    ensures outputType == "docx" ==> out == Success(WordFile(DocxBlocks(text)))
  {
    if outputType == "txt" then Success(TextFile(text))
    else if outputType == "docx" then Success(WordFile(DocxBlocks(text)))
    else Failure(InvalidOutputType)
  }

  /** In a Word file an image record between texts without markers comes
      back as its picture, between the paragraphs of the surrounding text. */
  lemma WordFileRecoversImage(a: string, p: string, b: string)
    requires Find(a, OpenMarker) == None && Find(b, OpenMarker) == None
    requires Find(p, OpenMarker) == None && Find(p, CloseMarker) == None
    requires Strip(p) == p
    ensures OutputFor("docx", a + ImageRecord(p) + b)
            == Success(WordFile(TextBlock(a + "\n\n") + [Picture(p)] + TextBlock("\n" + b)))
  {
    ImageRecordInText(a, p, b);
  }

  class CodebaseToText {
    const inputPath: string
    const outputType: string
    const verbose: bool
    const excludeHidden: bool
    var patterns: set<string>
    var excludedCount: nat

    /** The pattern set and the hidden switch, as the classifier reads them. */
    function Config(): Rules
      reads this`patterns
    {
      Rules(patterns, excludeHidden)
    }

    /** `__init__`: the settings, an empty count and the assembled
        pattern set. `exclude` is the list of `--exclude` strings (an
        absent option is the empty list) and `excludeFile` the text of the
        `.exclude` file, None when there is none. */
    constructor (inputPath: string, outputType: string, verbose: bool, excludeHidden: bool,
                 exclude: seq<string>, excludeFile: Option<string>)
      ensures this.inputPath == inputPath && this.outputType == outputType
      ensures this.verbose == verbose && this.excludeHidden == excludeHidden
      ensures patterns == AssembledPatterns(exclude, excludeFile)
      ensures excludedCount == 0
    {
      this.inputPath := inputPath;
      this.outputType := outputType;
      this.verbose := verbose;
      this.excludeHidden := excludeHidden;
      patterns := {};
      excludedCount := 0;
      new;
      LoadExclusionPatterns(exclude, excludeFile);
    }

    /** `_load_exclusion_patterns` */
    method LoadExclusionPatterns(exclude: seq<string>, excludeFile: Option<string>)
      modifies this`patterns
      ensures patterns == old(patterns) + AssembledPatterns(exclude, excludeFile)
    {
      AddCliPatterns(exclude);
      AddDefaultPatterns();
      AddFilePatterns(excludeFile);
    }

    /** `_add_cli_patterns` */
    method AddCliPatterns(args: seq<string>)
      modifies this`patterns
      ensures patterns == old(patterns) + CliPatterns(args)
    {
      var i := 0;
      while i < |args|
        invariant 0 <= i <= |args|
        invariant patterns == old(patterns) + UnionOf(args[..i], ArgPatterns)
      {
        AddPiecePatterns(Split(args[i], ","));
        UnionOfPrefix(args, i, ArgPatterns);
        i := i + 1;
      }
      assert args[..|args|] == args;
    }

    /** The inner loop of `_add_cli_patterns`, over the comma-separated
        pieces of one `--exclude` string: each stripped non-empty piece
        is added. */
    method AddPiecePatterns(pieces: seq<string>)
      modifies this`patterns
      ensures patterns == old(patterns) + UnionOf(pieces, PiecePattern)
    {
      var j := 0;
      while j < |pieces|
        invariant 0 <= j <= |pieces|
        invariant patterns == old(patterns) + UnionOf(pieces[..j], PiecePattern)
      {
        patterns := patterns + PiecePattern(pieces[j]);
        UnionOfPrefix(pieces, j, PiecePattern);
        j := j + 1;
      }
      assert pieces[..|pieces|] == pieces;
    }

    /** `_add_default_patterns` */
    method AddDefaultPatterns()
      modifies this`patterns
      ensures patterns == old(patterns) + DefaultPatterns
    {
      patterns := patterns + DefaultPatterns;
    }

    /** `_add_file_patterns`, reading the file line by line. */
    method AddFilePatterns(excludeFile: Option<string>)
      modifies this`patterns
      ensures excludeFile.None? ==> patterns == old(patterns)
      ensures excludeFile.Some? ==> patterns == old(patterns) + FilePatterns(excludeFile.value)
    {
      if excludeFile.None? {
        return;
      }
      var lines := Split(excludeFile.value, "\n");
      var k := 0;
      while k < |lines|
        invariant 0 <= k <= |lines|
        invariant patterns == old(patterns) + UnionOf(lines[..k], LinePattern)
      {
        var line := Strip(lines[k]);
        if line != "" && !StartsWith(line, "#") {
          patterns := patterns + {line};
        }
        UnionOfPrefix(lines, k, LinePattern);
        k := k + 1;
      }
      assert lines[..|lines|] == lines;
    }

    /** The pattern pass of `_filter_excluded_directories`: the children
        that are not excluded, in order; in verbose mode each dropped one
        is counted. */
    method DropExcludedDirectories(root: seq<string>, rel: seq<string>, ds: seq<Dir>) returns (kept: seq<Dir>)
      modifies this`excludedCount
      ensures kept == KeptDirs(Config(), root, ContentPruning, rel, ds)
      ensures excludedCount == old(excludedCount) + (if verbose then |ds| - |kept| else 0)
    {
      var r := Config();
      kept := [];
      var i := 0;
      while i < |ds|
        invariant 0 <= i <= |ds|
        invariant kept == KeptDirs(r, root, ContentPruning, rel, ds[..i])
        invariant excludedCount == old(excludedCount) + (if verbose then i - |kept| else 0)
      {
        KeptDirStep(r, root, ContentPruning, rel, ds, i);
        var excluded := ShouldExclude(r, root, rel + [ds[i].name]);
        assert KeepChild(r, root, ContentPruning, rel + [ds[i].name]) == !excluded;
        if !excluded {
          kept := kept + [ds[i]];
        } else if verbose {
          excludedCount := excludedCount + 1;
        }
        i := i + 1;
      }
      assert ds[..|ds|] == ds;
    }

    /** `_filter_excluded_directories`: the pattern pass (in verbose mode
        counting what it drops), then the hidden pass. */
    method FilterExcludedDirectories(root: seq<string>, rel: seq<string>, ds: seq<Dir>) returns (kept: seq<Dir>)
      modifies this`excludedCount
      ensures kept == KeptDirs(Config(), root, TreePruning, rel, ds)
      ensures excludedCount
              == old(excludedCount) + (if verbose then |ds| - |KeptDirs(Config(), root, ContentPruning, rel, ds)| else 0)
    {
      kept := DropExcludedDirectories(root, rel, ds);
      TreePruningIsTwoPasses(Config(), root, rel, ds);
      if excludeHidden {
        kept := KeptDirs(Config(), root, HiddenPruning, rel, kept);
      }
    }

    /** `_generate_file_entries`: one line per file that is not excluded;
        in verbose mode the excluded ones are counted. */
    method GenerateFileEntries(root: seq<string>, rel: seq<string>, files: seq<File>) returns (lines: string)
      modifies this`excludedCount
      ensures lines == FileLines(rel, KeptFiles(Config(), root, rel, files))
      ensures excludedCount
              == old(excludedCount) + (if verbose then |files| - |KeptFiles(Config(), root, rel, files)| else 0)
    {
      var r := Config();
      lines := "";
      ghost var kept: seq<File> := [];
      var i := 0;
      while i < |files|
        invariant 0 <= i <= |files|
        invariant kept == KeptFiles(r, root, rel, files[..i])
        invariant lines == FileLines(rel, kept)
        invariant excludedCount == old(excludedCount) + (if verbose then i - |kept| else 0)
      {
        var excluded := ShouldExclude(r, root, rel + [files[i].name]);
        if !excluded {
          KeptFileStep(r, root, rel, files, i);
          lines := lines + FileEntry(rel, files[i].name);
          kept := kept + [files[i]];
        } else {
          DroppedFileStep(r, root, rel, files, i);
          if verbose {
            excludedCount := excludedCount + 1;
          }
        }
        i := i + 1;
      }
      assert files[..|files|] == files;
    }

    /** `_handle_excluded_directory`: an excluded directory is counted and
        recorded as pruned, and the walk goes on without it. */
    method HandleExcludedDirectory(root: seq<string>, rel: seq<string>, excludedDirs: set<string>)
      returns (skip: bool, dirs: set<string>)
      modifies this`excludedCount
      ensures skip == ShouldExclude(Config(), root, rel)
      ensures dirs == if skip then excludedDirs + {PathString(root, rel)} else excludedDirs
      ensures excludedCount == old(excludedCount) + (if skip then 1 else 0)
    {
      skip := ShouldExclude(Config(), root, rel);
      dirs := excludedDirs;
      if skip {
        excludedCount := excludedCount + 1;
        dirs := dirs + {PathString(root, rel)};
      }
    }

    /** The branch of `_parse_folder` for a directory it does not skip: the
        child list is filtered, and the directory's line and the lines of
        its kept files are produced. */
    method VisitDirectory(r: Rules, root: seq<string>, v: Frame) returns (kept: seq<Dir>, lines: string)
      requires r == Config()
      modifies this`excludedCount
      ensures kept == KeptDirs(r, root, TreePruning, v.rel, v.dir.dirs)
      ensures lines == DirectoryLines(r, root, v)
      ensures excludedCount == old(excludedCount) + (if verbose then FrameVerboseCount(r, root, v) else 0)
    {
      kept := FilterExcludedDirectories(root, v.rel, v.dir.dirs);
      var fileLines := GenerateFileEntries(root, v.rel, v.dir.files);
      lines := DirectoryEntry(root, v.rel) + fileLines;
    }

    /** `_parse_folder`: os.walk from the root, pending frames first in
        line. An excluded directory is recorded and skipped with its child
        list left whole; a directory under a recorded one is skipped; any
        other has its child list filtered and adds its line and the lines
        of its files. */
    method ParseFolder(root: seq<string>, top: Dir) returns (tree: string)
      modifies this`excludedCount
      ensures tree == FolderTree(Config(), root, top)
      ensures excludedCount == old(excludedCount) + TreeExclusions(Config(), root, verbose, top)
    {
      var r := Config();
      tree := "";
      var excludedDirs: set<string> := {};
      var stack := [Frame([], top)];
      ghost var topExcluded := ShouldExclude(r, root, []);
      ghost var pr := if topExcluded then NoPruning else TreePruning;
      ghost var all := Visits(r, root, pr, Frame([], top));
      ghost var done: seq<Frame> := [];
      VisitsOfSingle(r, root, pr, Frame([], top));
      while stack != []
        invariant done + VisitsOf(r, root, pr, stack) == all
        invariant !topExcluded ==> KeptWalk(r, root, stack, excludedDirs)
        invariant !topExcluded ==> tree == TreeText(r, root, done)
        invariant !topExcluded ==> excludedCount == old(excludedCount) + (if verbose then VerboseCount(r, root, done) else 0)
        invariant topExcluded ==> PrunedWalk(root, top, done, stack, excludedDirs) && tree == ""
        invariant topExcluded ==> excludedCount == old(excludedCount) + CountExcluded(r, root, done)
        decreases FramesSize(stack)
      {
        var v := stack[0];
        var rest := stack[1..];
        VisitsOfStep(r, root, pr, stack);
        var path := PathString(root, v.rel);
        ghost var wasDirs := excludedDirs;
        var skip;
        skip, excludedDirs := HandleExcludedDirectory(root, v.rel, excludedDirs);
        if !skip {
          skip := SkipExcludedDir(path, excludedDirs);
        }
        CountExcludedStep(r, root, done, v);
        ghost var oldStack := stack;
        ghost var next := Frames(v.rel, KeptDirs(r, root, pr, v.rel, v.dir.dirs)) + rest;
        if skip {
          PrunedWalkStep(r, root, top, done, stack, wasDirs, excludedDirs, topExcluded);
          NoPruningKeepsAll(r, root, v.rel, v.dir.dirs);
          FramesSizeAppend(Frames(v.rel, v.dir.dirs), rest);
          stack := Frames(v.rel, v.dir.dirs) + rest;
        } else {
          PrunedWalkVisitsNothing(r, root, top, done, stack, excludedDirs, topExcluded);
          var kept, lines := VisitDirectory(r, root, v);
          tree := tree + lines;
          KeptWalkStep(r, root, stack, excludedDirs, kept);
          FramesSizeAppend(Frames(v.rel, kept), rest);
          TreeTextStep(r, root, done, v);
          VerboseCountStep(r, root, done, v);
          stack := Frames(v.rel, kept) + rest;
        }
        assert stack == next;
        MoveVisited(done, v, VisitsOf(r, root, pr, next), VisitsOf(r, root, pr, oldStack));
        done := done + [v];
      }
      assert done == all;
    }

    /** `_filter_directories_for_processing` */
    method FilterDirectoriesForProcessing(root: seq<string>, rel: seq<string>, ds: seq<Dir>) returns (kept: seq<Dir>)
      ensures kept == KeptDirs(Config(), root, ContentPruning, rel, ds)
    {
      var r := Config();
      kept := [];
      var i := 0;
      while i < |ds|
        invariant 0 <= i <= |ds|
        invariant kept == KeptDirs(r, root, ContentPruning, rel, ds[..i])
      {
        KeptDirStep(r, root, ContentPruning, rel, ds, i);
        var excluded := ShouldExclude(r, root, rel + [ds[i].name]);
        assert KeepChild(r, root, ContentPruning, rel + [ds[i].name]) == !excluded;
        if !excluded {
          kept := kept + [ds[i]];
        }
        i := i + 1;
      }
      assert ds[..|ds|] == ds;
    }

    /** `_handle_directory_exclusion`: an excluded directory is recorded
        as pruned, and the walk goes on without it. */
    method HandleDirectoryExclusion(root: seq<string>, rel: seq<string>, excludedDirs: set<string>)
      returns (skip: bool, dirs: set<string>)
      ensures skip == ShouldExclude(Config(), root, rel)
      ensures dirs == if skip then excludedDirs + {PathString(root, rel)} else excludedDirs
    {
      skip := ShouldExclude(Config(), root, rel);
      dirs := if skip then excludedDirs + {PathString(root, rel)} else excludedDirs;
    }

    /** The inner loop of `_process_files`: the record of every file of one
        directory that `_process_single_file` does not reject, in listing
        order. */
    method ProcessDirectoryFiles(root: seq<string>, absRoot: seq<string>, rel: seq<string>, files: seq<File>)
      returns (records: string)
      ensures records == FileRecords(Config(), root, absRoot, outputType, rel, files)
    {
      var r := Config();
      records := "";
      var j := 0;
      while j < |files|
        invariant 0 <= j <= |files|
        invariant records == FileRecords(r, root, absRoot, outputType, rel, files[..j])
      {
        FileRecordsAppend(r, root, absRoot, outputType, rel, files[..j], [files[j]]);
        assert files[..j + 1] == files[..j] + [files[j]];
        var result := ProcessSingleFile(r, root, absRoot, outputType, rel, files[j]);
        if result.Some? {
          records := records + result.value;
        }
        j := j + 1;
      }
      assert files[..|files|] == files;
    }

    /** `_process_files`: the same walk as `_parse_folder`, collecting the
        records of the files of every directory it does not skip.
        `absRoot` is the component list of the absolute path of the root. */
    method ProcessFiles(root: seq<string>, absRoot: seq<string>, top: Dir) returns (content: string)
      ensures content == FolderContents(Config(), root, absRoot, outputType, top)
    {
      var r := Config();
      content := "";
      var excludedDirs: set<string> := {};
      var stack := [Frame([], top)];
      ghost var topExcluded := ShouldExclude(r, root, []);
      ghost var pr := if topExcluded then NoPruning else ContentPruning;
      ghost var all := Visits(r, root, pr, Frame([], top));
      ghost var done: seq<Frame> := [];
      VisitsOfSingle(r, root, pr, Frame([], top));
      while stack != []
        invariant done + VisitsOf(r, root, pr, stack) == all
        invariant !topExcluded ==> KeptWalk(r, root, stack, excludedDirs)
        invariant !topExcluded ==> content == RecordsText(r, root, absRoot, outputType, done)
        invariant topExcluded ==> PrunedWalk(root, top, done, stack, excludedDirs) && content == ""
        decreases FramesSize(stack)
      {
        var v := stack[0];
        var rest := stack[1..];
        VisitsOfStep(r, root, pr, stack);
        var path := PathString(root, v.rel);
        ghost var wasDirs := excludedDirs;
        var skip;
        skip, excludedDirs := HandleDirectoryExclusion(root, v.rel, excludedDirs);
        if !skip {
          skip := SkipExcludedDir(path, excludedDirs);
        }
        ghost var oldStack := stack;
        if skip {
          PrunedWalkStep(r, root, top, done, stack, wasDirs, excludedDirs, topExcluded);
          NoPruningKeepsAll(r, root, v.rel, v.dir.dirs);
          FramesSizeAppend(Frames(v.rel, v.dir.dirs), rest);
          stack := Frames(v.rel, v.dir.dirs) + rest;
        } else {
          PrunedWalkVisitsNothing(r, root, top, done, stack, excludedDirs, topExcluded);
          var kept := FilterDirectoriesForProcessing(root, v.rel, v.dir.dirs);
          var records := ProcessDirectoryFiles(root, absRoot, v.rel, v.dir.files);
          content := content + records;
          KeptWalkStep(r, root, stack, excludedDirs, kept);
          FramesSizeAppend(Frames(v.rel, kept), rest);
          RecordsTextStep(r, root, absRoot, outputType, done, v);
          stack := Frames(v.rel, kept) + rest;
        }
        MoveVisited(done, v, VisitsOf(r, root, pr, stack), VisitsOf(r, root, pr, oldStack));
        done := done + [v];
      }
      assert done == all;
    }

    /** `get_text`: the walked tree is the input folder, or the clone of
        the repository when the input is a GitHub address. */
    method GetText(root: seq<string>, absRoot: seq<string>, top: Dir) returns (text: string)
      modifies this`excludedCount
      ensures text == Document(FolderTree(Config(), root, top), FolderContents(Config(), root, absRoot, outputType, top))
      ensures excludedCount == old(excludedCount) + TreeExclusions(Config(), root, verbose, top)
    {
      var tree := ParseFolder(root, top);
      var contents := ProcessFiles(root, absRoot, top);
      text := Header + tree + Middle + contents;
    }

    /** The docx branch of `get_file`: the text before the first opening
        image marker becomes a paragraph unless it is blank, and each later
        segment adds its picture and the paragraph that follows it. */
    method DocxSegments(text: string) returns (blocks: seq<Block>)
      ensures blocks == DocxBlocks(text)
    {
      var segments := Split(text, OpenMarker);
      var images := ImageSegments(segments[1..]);
      blocks := TextBlock(segments[0]) + images;
    }

    /** The loop of `get_file` over the segments after the first. */
    method ImageSegments(segments: seq<string>) returns (blocks: seq<Block>)
      ensures blocks == SegmentsBlocks(segments)
    {
      blocks := [];
      var k := 0;
      while k < |segments|
        invariant 0 <= k <= |segments|
        invariant blocks == SegmentsBlocks(segments[..k])
      {
        SegmentsBlocksStep(segments, k);
        blocks := blocks + SegmentBlocks(segments[k]);
        k := k + 1;
      }
      assert segments[..|segments|] == segments;
    }

    /** `get_file`: the text, then what is written for the output type. */
    method GetFile(root: seq<string>, absRoot: seq<string>, top: Dir) returns (out: Result<Output, string>)
      modifies this`excludedCount
      ensures out == OutputFor(outputType, Document(FolderTree(Config(), root, top),
                                                    FolderContents(Config(), root, absRoot, outputType, top)))
      ensures excludedCount == old(excludedCount) + TreeExclusions(Config(), root, verbose, top)
    {
      var text := GetText(root, absRoot, top);
      if outputType == "txt" {
        out := Success(TextFile(text));
      } else if outputType == "docx" {
        var blocks := DocxSegments(text);
        out := Success(WordFile(blocks));
      } else {
        out := Failure(InvalidOutputType);
      }
    }
  }
}
