/** The older converter of cli.py. It walks the tree twice like the newer
    one, but it has no pattern set: the child filter drops the directories
    named `venv` and, with exclude_hidden, the hidden ones; the tree lists
    every file of a visited directory; and a file whose first 1024 bytes
    hold a zero byte (or that cannot be read) is recorded as binary, without
    its content. */
module Legacy {
  import opened Wrappers
  import opened Strings
  import opened PathClassifier
  import opened TreeWalker
  import opened Layout

  /** The classifier settings of the legacy converter: no patterns, only
      the exclude_hidden switch. */
  function LegacyRules(excludeHidden: bool): Rules {
    Rules({}, excludeHidden)
  }

  /** How many bytes `_is_binary_file` reads. */
  const ChunkSize: nat := 1024

  /** `file.read(1024)`: the first 1024 bytes, or all of them when there
      are fewer. */
  function Chunk(bytes: seq<bv8>): (c: seq<bv8>)
    ensures |c| <= ChunkSize && |c| <= |bytes| && c == bytes[..|c|]
    ensures |bytes| <= ChunkSize ==> c == bytes
    ensures |bytes| > ChunkSize ==> |c| == ChunkSize
  {
    if |bytes| <= ChunkSize then bytes else bytes[..ChunkSize]
  }

  /** `_is_binary_file` for what reading the file in binary mode gave
      (None when the read failed). */
  predicate IsBinary(data: Option<seq<bv8>>) {
    match data
    case None => true
    case Some(bytes) => 0 in Chunk(bytes)
  }

  /** A file is binary exactly when it cannot be read or one of its first
      1024 bytes is zero; a zero byte further on does not count. */
  lemma BinaryIff(data: Option<seq<bv8>>)
    ensures IsBinary(data)
            <==> data.None? || exists i :: 0 <= i < |data.value| && i < ChunkSize && data.value[i] == 0
  {
    if data.Some? {
      var c := Chunk(data.value);
      if 0 in c {
        var i :| 0 <= i < |c| && c[i] == 0;
        assert data.value[i] == c[i];
      }
      if exists i :: 0 <= i < |data.value| && i < ChunkSize && data.value[i] == 0 {
        var i :| 0 <= i < |data.value| && i < ChunkSize && data.value[i] == 0;
        assert c[i] == 0;
      }
    }
  }

  /** Only the first 1024 bytes decide: two files of at least that size
      that agree on them are both binary or both not, whatever follows. */
  lemma BinaryDecidedByChunk(a: seq<bv8>, b: seq<bv8>)
    requires |a| >= ChunkSize && |b| >= ChunkSize && a[..ChunkSize] == b[..ChunkSize]
    ensures IsBinary(Some(a)) == IsBinary(Some(b))
  {
  }

  /** The note a binary file's record holds instead of its content. */
  const BinaryNote: string := "Binary file. Content not included.\n"

  /** The record the inner loop of `_process_files` appends for one file of
      the directory at rel, None when it skips the file. The path is the
      walked path (`os.path.join(root, file)`), not one relative to the
      root, and the type line has no `no extension` fallback. The hidden
      test is made on the absolute path, whose components are absRoot and
      those below the root. */
  function LegacyFileRecord(excludeHidden: bool, root: seq<string>, absRoot: seq<string>,
                            rel: seq<string>, f: File): Option<string>
  {
    if excludeHidden && IsHiddenPath(absRoot + rel + [f.name]) then None
    else if IsBinary(f.data) then Some(Record(PathString(root, rel + [f.name]), Extension(f.name), BinaryNote))
    else Some(Record(PathString(root, rel + [f.name]), Extension(f.name), f.text))
  }

  /** The records of the files of one directory, in listing order. */
  function LegacyFileRecords(excludeHidden: bool, root: seq<string>, absRoot: seq<string>,
                             rel: seq<string>, fs: seq<File>): string
  {
    if fs == [] then ""
    else
      var head := match LegacyFileRecord(excludeHidden, root, absRoot, rel, fs[0])
                  case None => "" case Some(rec) => rec;
      head + LegacyFileRecords(excludeHidden, root, absRoot, rel, fs[1..])
  }

  lemma {:induction false} LegacyFileRecordsAppend(excludeHidden: bool, root: seq<string>, absRoot: seq<string>,
                                                   rel: seq<string>, a: seq<File>, b: seq<File>)
    ensures LegacyFileRecords(excludeHidden, root, absRoot, rel, a + b)
            == LegacyFileRecords(excludeHidden, root, absRoot, rel, a) + LegacyFileRecords(excludeHidden, root, absRoot, rel, b)
  {
    if a == [] {
      assert a + b == b;
    } else {
      assert (a + b)[0] == a[0];
      assert (a + b)[1..] == a[1..] + b;
      var head := match LegacyFileRecord(excludeHidden, root, absRoot, rel, a[0]) case None => "" case Some(rec) => rec;
      LegacyFileRecordsAppend(excludeHidden, root, absRoot, rel, a[1..], b);
      ConcatAssoc(head, LegacyFileRecords(excludeHidden, root, absRoot, rel, a[1..]), LegacyFileRecords(excludeHidden, root, absRoot, rel, b));
    }
  }

  lemma LegacyFileRecordsStep(excludeHidden: bool, root: seq<string>, absRoot: seq<string>,
                              rel: seq<string>, fs: seq<File>, j: nat)
    requires j < |fs|
    ensures LegacyFileRecords(excludeHidden, root, absRoot, rel, fs[..j + 1])
            == LegacyFileRecords(excludeHidden, root, absRoot, rel, fs[..j])
               + (match LegacyFileRecord(excludeHidden, root, absRoot, rel, fs[j]) case None => "" case Some(rec) => rec)
  {
    LegacyFileRecordsAppend(excludeHidden, root, absRoot, rel, fs[..j], [fs[j]]);
    assert fs[..j + 1] == fs[..j] + [fs[j]];
    assert [fs[j]][1..] == [];
  }

  /** The records of every visited frame. */
  function LegacyRecordsText(excludeHidden: bool, root: seq<string>, absRoot: seq<string>, vs: seq<Frame>): string {
    if vs == [] then ""
    else LegacyFileRecords(excludeHidden, root, absRoot, vs[0].rel, vs[0].dir.files)
         + LegacyRecordsText(excludeHidden, root, absRoot, vs[1..])
  }

  lemma {:induction false} LegacyRecordsTextAppend(excludeHidden: bool, root: seq<string>, absRoot: seq<string>,
                                                   a: seq<Frame>, b: seq<Frame>)
    ensures LegacyRecordsText(excludeHidden, root, absRoot, a + b)
            == LegacyRecordsText(excludeHidden, root, absRoot, a) + LegacyRecordsText(excludeHidden, root, absRoot, b)
  {
    if a == [] {
      assert a + b == b;
    } else {
      assert (a + b)[0] == a[0];
      assert (a + b)[1..] == a[1..] + b;
      var head := LegacyFileRecords(excludeHidden, root, absRoot, a[0].rel, a[0].dir.files);
      LegacyRecordsTextAppend(excludeHidden, root, absRoot, a[1..], b);
      ConcatAssoc(head, LegacyRecordsText(excludeHidden, root, absRoot, a[1..]), LegacyRecordsText(excludeHidden, root, absRoot, b));
    }
  }

  lemma LegacyRecordsTextStep(excludeHidden: bool, root: seq<string>, absRoot: seq<string>, done: seq<Frame>, v: Frame)
    ensures LegacyRecordsText(excludeHidden, root, absRoot, done + [v])
            == LegacyRecordsText(excludeHidden, root, absRoot, done)
               + LegacyFileRecords(excludeHidden, root, absRoot, v.rel, v.dir.files)
  {
    LegacyRecordsTextAppend(excludeHidden, root, absRoot, done, [v]);
    assert [v][1..] == [];
  }

  /** The tree text of the legacy walk: each visited directory's line,
      then a line for every one of its files. */
  function LegacyTreeText(root: seq<string>, vs: seq<Frame>): string {
    if vs == [] then ""
    else DirectoryEntry(root, vs[0].rel) + FileLines(vs[0].rel, vs[0].dir.files) + LegacyTreeText(root, vs[1..])
  }

  lemma {:induction false} LegacyTreeTextAppend(root: seq<string>, a: seq<Frame>, b: seq<Frame>)
    ensures LegacyTreeText(root, a + b) == LegacyTreeText(root, a) + LegacyTreeText(root, b)
  {
    if a == [] {
      assert a + b == b;
    } else {
      assert (a + b)[0] == a[0];
      assert (a + b)[1..] == a[1..] + b;
      var head := DirectoryEntry(root, a[0].rel) + FileLines(a[0].rel, a[0].dir.files);
      LegacyTreeTextAppend(root, a[1..], b);
      ConcatAssoc(head, LegacyTreeText(root, a[1..]), LegacyTreeText(root, b));
    }
  }

  lemma LegacyTreeTextStep(root: seq<string>, done: seq<Frame>, v: Frame)
    ensures LegacyTreeText(root, done + [v])
            == LegacyTreeText(root, done) + DirectoryEntry(root, v.rel) + FileLines(v.rel, v.dir.files)
  {
    LegacyTreeTextAppend(root, done, [v]);
    assert [v][1..] == [];
  }

  lemma FileLinesStep(rel: seq<string>, fs: seq<File>, i: nat)
    requires i < |fs|
    ensures FileLines(rel, fs[..i + 1]) == FileLines(rel, fs[..i]) + FileEntry(rel, fs[i].name)
  {
    FileLinesAppend(rel, fs[..i], [fs[i]]);
    assert fs[..i + 1] == fs[..i] + [fs[i]];
    assert [fs[i]][1..] == [];
  }

  /** The frames the legacy walk visits. */
  function LegacyVisits(excludeHidden: bool, root: seq<string>, top: Dir): seq<Frame> {
    Visits(LegacyRules(excludeHidden), root, LegacyPruning, Frame([], top))
  }

  /** The legacy walk never enters a directory called `venv`, at any depth,
      and with exclude_hidden never one whose name is hidden; every other
      directory of the tree it does reach. */
  lemma LegacyWalkAvoidsVenvAndHidden(excludeHidden: bool, root: seq<string>, top: Dir, v: Frame)
    ensures v in LegacyVisits(excludeHidden, root, top)
            ==> forall i :: 0 <= i < |v.rel| ==> v.rel[i] != "venv" && !(excludeHidden && HiddenName(v.rel[i]))
    ensures v in Visits(LegacyRules(excludeHidden), root, NoPruning, Frame([], top))
            && (forall i :: 0 <= i < |v.rel| ==> v.rel[i] != "venv")
            && (excludeHidden ==> forall j :: 0 < j <= |v.rel| ==> !IsHiddenPath(FullPath(root, v.rel[..j])))
            ==> v in LegacyVisits(excludeHidden, root, top)
  {
    var r := LegacyRules(excludeHidden);
    VisitedIff(r, root, LegacyPruning, top, v);
    if v in LegacyVisits(excludeHidden, root, top) {
      forall i | 0 <= i < |v.rel| ensures v.rel[i] != "venv" && !(excludeHidden && HiddenName(v.rel[i])) {
        var p := v.rel[..i + 1];
        assert KeepChild(r, root, LegacyPruning, p);
        assert Last(p) == v.rel[i];
        if excludeHidden {
          var cs := FullPath(root, p);
          assert p[i] in cs;
          var k :| 0 <= k < |cs| && cs[k] == p[i];
          HiddenPathIff(cs);
        }
      }
    }
    forall j | 0 < j <= |v.rel| ensures Last(v.rel[..j]) == v.rel[j - 1] {
      assert v.rel[..j][j - 1] == v.rel[j - 1];
    }
  }

  /** Scanned from the root, the legacy record of a binary file holds the
      note in place of the content, whatever the content is: two binary
      files with the same name give the same record. */
  lemma BinaryRecordOmitsContent(excludeHidden: bool, root: seq<string>, absRoot: seq<string>,
                                 rel: seq<string>, f: File, g: File)
    requires f.name == g.name && IsBinary(f.data) && IsBinary(g.data)
    ensures LegacyFileRecord(excludeHidden, root, absRoot, rel, f) == LegacyFileRecord(excludeHidden, root, absRoot, rel, g)
  {
  }

  /** A binary file's record reads back as its path, its extension and the
      binary note, with none of the file's text. */
  lemma BinaryRecordReadsBack(excludeHidden: bool, root: seq<string>, absRoot: seq<string>, rel: seq<string>, f: File)
    requires IsBinary(f.data) && !(excludeHidden && IsHiddenPath(absRoot + rel + [f.name]))
    requires '\n' !in PathString(root, rel + [f.name]) && '\n' !in f.name
    ensures LegacyFileRecord(excludeHidden, root, absRoot, rel, f).Some?
    ensures ParseRecord(LegacyFileRecord(excludeHidden, root, absRoot, rel, f).value)
            == Some(RecordParts(PathString(root, rel + [f.name]), Extension(f.name), BinaryNote))
  {
    var ext := Extension(f.name);
    assert '\n' !in ext by {
      forall k | 0 <= k < |ext| ensures ext[k] != '\n' {
        assert ext[k] == f.name[|f.name| - |ext| + k];
      }
    }
    RecordRoundTrip(PathString(root, rel + [f.name]), ext, BinaryNote);
  }

  /** A text file's record reads back as its path, its extension and its
      whole text. */
  lemma TextRecordReadsBack(excludeHidden: bool, root: seq<string>, absRoot: seq<string>, rel: seq<string>, f: File)
    requires !IsBinary(f.data) && !(excludeHidden && IsHiddenPath(absRoot + rel + [f.name]))
    requires '\n' !in PathString(root, rel + [f.name]) && '\n' !in f.name
    ensures LegacyFileRecord(excludeHidden, root, absRoot, rel, f).Some?
    ensures ParseRecord(LegacyFileRecord(excludeHidden, root, absRoot, rel, f).value)
            == Some(RecordParts(PathString(root, rel + [f.name]), Extension(f.name), f.text))
  {
    var ext := Extension(f.name);
    assert '\n' !in ext by {
      forall k | 0 <= k < |ext| ensures ext[k] != '\n' {
        assert ext[k] == f.name[|f.name| - |ext| + k];
      }
    }
    RecordRoundTrip(PathString(root, rel + [f.name]), ext, f.text);
  }

  /** With exclude_hidden, a file whose absolute path has a hidden
      component gets no record, binary or not. */
  lemma HiddenFileHasNoRecord(root: seq<string>, absRoot: seq<string>, rel: seq<string>, f: File, i: nat)
    requires i < |absRoot + rel + [f.name]| && HiddenName((absRoot + rel + [f.name])[i])
    ensures LegacyFileRecord(true, root, absRoot, rel, f) == None
  {
    HiddenPathIff(absRoot + rel + [f.name]);
  }

  /** What the legacy `get_file` produces: the text, one paragraph holding
      all of it, or the error it raises. */
  function LegacyOutputFor(outputType: string, text: string): (out: Result<Output, string>)
    ensures out.Failure? <==> outputType != "txt" && outputType != "docx"
    ensures out.Failure? ==> out.error == InvalidOutputType
    ensures outputType == "txt" ==> out == Success(TextFile(text))
    ensures outputType == "docx" ==> out == Success(WordFile([Paragraph(text)]))
  {
    if outputType == "txt" then Success(TextFile(text))
    else if outputType == "docx" then Success(WordFile([Paragraph(text)]))
    else Failure(InvalidOutputType)
  }

  class LegacyCodebaseToText {
    const inputPath: string
    const outputType: string
    const verbose: bool
    const excludeHidden: bool

    constructor (inputPath: string, outputType: string, verbose: bool, excludeHidden: bool)
      ensures this.inputPath == inputPath && this.outputType == outputType
      ensures this.verbose == verbose && this.excludeHidden == excludeHidden
    {
      this.inputPath := inputPath;
      this.outputType := outputType;
      this.verbose := verbose;
      this.excludeHidden := excludeHidden;
    }

    /** The comprehension that replaces `dirs[:]` in both walks: the
        children not named `venv` and, with exclude_hidden, not hidden,
        in their order. */
    method FilterChildren(root: seq<string>, rel: seq<string>, ds: seq<Dir>) returns (kept: seq<Dir>)
      ensures kept == KeptDirs(LegacyRules(excludeHidden), root, LegacyPruning, rel, ds)
      ensures forall d :: d in kept <==> d in ds && d.name != "venv"
                                         && !(excludeHidden && IsHiddenPath(FullPath(root, rel + [d.name])))
    {
      var r := LegacyRules(excludeHidden);
      kept := [];
      var i := 0;
      while i < |ds|
        invariant 0 <= i <= |ds|
        invariant kept == KeptDirs(r, root, LegacyPruning, rel, ds[..i])
      {
        KeptDirsAppend(r, root, LegacyPruning, rel, ds[..i], [ds[i]]);
        assert ds[..i + 1] == ds[..i] + [ds[i]];
        var d := ds[i];
        if d.name != "venv" && (!excludeHidden || !IsHiddenPath(FullPath(root, rel + [d.name]))) {
          kept := kept + [d];
        }
        i := i + 1;
      }
      assert ds[..|ds|] == ds;
      forall d: Dir | d in ds ensures Last(rel + [d.name]) == d.name {
      }
      forall d: Dir ensures d in kept <==> d in ds && KeepChild(r, root, LegacyPruning, rel + [d.name]) {
        KeptDirsMembers(r, root, LegacyPruning, rel, ds, d);
      }
    }

    /** The loop of `_parse_folder` over the files of one directory: a
        line for each, one level deeper than the directory. */
    method ListFiles(rel: seq<string>, files: seq<File>) returns (lines: string)
      ensures lines == FileLines(rel, files)
    {
      lines := "";
      var i := 0;
      while i < |files|
        invariant 0 <= i <= |files|
        invariant lines == FileLines(rel, files[..i])
      {
        FileLinesStep(rel, files, i);
        lines := lines + FileEntry(rel, files[i].name);
        i := i + 1;
      }
      assert files[..|files|] == files;
    }

    /** `_parse_folder` */
    method ParseFolder(root: seq<string>, top: Dir) returns (tree: string)
      ensures tree == LegacyTreeText(root, LegacyVisits(excludeHidden, root, top))
    {
      ghost var r := LegacyRules(excludeHidden);
      tree := "";
      var stack := [Frame([], top)];
      ghost var all := Visits(r, root, LegacyPruning, Frame([], top));
      ghost var done: seq<Frame> := [];
      VisitsOfSingle(r, root, LegacyPruning, Frame([], top));
      while stack != []
        invariant done + VisitsOf(r, root, LegacyPruning, stack) == all
        invariant tree == LegacyTreeText(root, done)
        decreases FramesSize(stack)
      {
        var v := stack[0];
        var rest := stack[1..];
        VisitsOfStep(r, root, LegacyPruning, stack);
        var kept := FilterChildren(root, v.rel, v.dir.dirs);
        tree := tree + DirectoryEntry(root, v.rel);
        var lines := ListFiles(v.rel, v.dir.files);
        tree := tree + lines;
        LegacyTreeTextStep(root, done, v);
        FramesSizeAppend(Frames(v.rel, kept), rest);
        ghost var oldStack := stack;
        stack := Frames(v.rel, kept) + rest;
        MoveVisited(done, v, VisitsOf(r, root, LegacyPruning, stack), VisitsOf(r, root, LegacyPruning, oldStack));
        done := done + [v];
      }
      assert done == all;
    }

    /** The loop of `_process_files` over the files of one directory. */
    method ProcessDirectoryFiles(root: seq<string>, absRoot: seq<string>, rel: seq<string>, files: seq<File>)
      returns (records: string)
      ensures records == LegacyFileRecords(excludeHidden, root, absRoot, rel, files)
    {
      records := "";
      var j := 0;
      while j < |files|
        invariant 0 <= j <= |files|
        invariant records == LegacyFileRecords(excludeHidden, root, absRoot, rel, files[..j])
      {
        LegacyFileRecordsStep(excludeHidden, root, absRoot, rel, files, j);
        var f := files[j];
        if excludeHidden && IsHiddenPath(absRoot + rel + [f.name]) {
          // skipped: hidden
        } else if IsBinary(f.data) {
          records := records + Record(PathString(root, rel + [f.name]), Extension(f.name), BinaryNote);
        } else {
          records := records + Record(PathString(root, rel + [f.name]), Extension(f.name), f.text);
        }
        j := j + 1;
      }
      assert files[..|files|] == files;
    }

    /** `_process_files`. `absRoot` is the component list of the absolute
        path of the root. */
    method ProcessFiles(root: seq<string>, absRoot: seq<string>, top: Dir) returns (content: string)
      ensures content == LegacyRecordsText(excludeHidden, root, absRoot, LegacyVisits(excludeHidden, root, top))
    {
      ghost var r := LegacyRules(excludeHidden);
      content := "";
      var stack := [Frame([], top)];
      ghost var all := Visits(r, root, LegacyPruning, Frame([], top));
      ghost var done: seq<Frame> := [];
      VisitsOfSingle(r, root, LegacyPruning, Frame([], top));
      while stack != []
        invariant done + VisitsOf(r, root, LegacyPruning, stack) == all
        invariant content == LegacyRecordsText(excludeHidden, root, absRoot, done)
        decreases FramesSize(stack)
      {
        var v := stack[0];
        var rest := stack[1..];
        VisitsOfStep(r, root, LegacyPruning, stack);
        var kept := FilterChildren(root, v.rel, v.dir.dirs);
        var records := ProcessDirectoryFiles(root, absRoot, v.rel, v.dir.files);
        content := content + records;
        LegacyRecordsTextStep(excludeHidden, root, absRoot, done, v);
        FramesSizeAppend(Frames(v.rel, kept), rest);
        ghost var oldStack := stack;
        stack := Frames(v.rel, kept) + rest;
        MoveVisited(done, v, VisitsOf(r, root, LegacyPruning, stack), VisitsOf(r, root, LegacyPruning, oldStack));
        done := done + [v];
      }
      assert done == all;
    }

    /** `get_text` */
    method GetText(root: seq<string>, absRoot: seq<string>, top: Dir) returns (text: string)
      ensures text == Document(LegacyTreeText(root, LegacyVisits(excludeHidden, root, top)),
                               LegacyRecordsText(excludeHidden, root, absRoot, LegacyVisits(excludeHidden, root, top)))
    {
      var tree := ParseFolder(root, top);
      var contents := ProcessFiles(root, absRoot, top);
      text := Header + tree + Middle + contents;
    }

    /** `get_file` */
    method GetFile(root: seq<string>, absRoot: seq<string>, top: Dir) returns (out: Result<Output, string>)
      ensures out == LegacyOutputFor(outputType, Document(LegacyTreeText(root, LegacyVisits(excludeHidden, root, top)),
                                                          LegacyRecordsText(excludeHidden, root, absRoot,
                                                                            LegacyVisits(excludeHidden, root, top))))
    {
      var text := GetText(root, absRoot, top);
      if outputType == "txt" {
        out := Success(TextFile(text));
      } else if outputType == "docx" {
        out := Success(WordFile([Paragraph(text)]));
      } else {
        out := Failure(InvalidOutputType);
      }
    }
  }
}
