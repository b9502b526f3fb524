/** The fixed text formats of the converter: the indented tree lines, the
    per-file records, the two-section document and the split of that
    document at the image markers when it is written as a Word file. */
module Layout {
  import opened Wrappers
  import opened Strings
  import opened PathClassifier
  import opened TreeWalker

  /** `'-' * 50`, the delimiter under both headers and around "File End". */
  const Dashes: string := Repeat('-', 50)

  /** The number of spaces a line starts with. */
  function LeadingSpaces(s: string): (n: nat)
    ensures n <= |s|
    ensures forall i :: 0 <= i < n ==> s[i] == ' '
    ensures n < |s| ==> s[n] != ' '
  {
    if s != [] && s[0] == ' ' then 1 + LeadingSpaces(s[1..]) else 0
  }

  lemma {:induction false} LeadingSpacesOfIndent(n: nat, rest: string)
    requires rest == [] || rest[0] != ' '
    ensures LeadingSpaces(Repeat(' ', n) + rest) == n
  {
    if n > 0 {
      assert (Repeat(' ', n) + rest)[1..] == Repeat(' ', n - 1) + rest;
      LeadingSpacesOfIndent(n - 1, rest);
    } else {
      assert Repeat(' ', n) + rest == rest;
    }
  }

  /** `_generate_directory_entry`: four spaces per level, the basename, `/`. */
  function DirectoryEntry(root: seq<string>, rel: seq<string>): string {
    Repeat(' ', 4 * |rel|) + Basename(root, rel) + "/\n"
  }

  /** How many times c occurs in s (`str.count` of a one-character string). */
  function CountChar(s: string, c: char): nat {
    if s == [] then 0 else (if s[0] == c then 1 else 0) + CountChar(s[1..], c)
  }

  lemma {:induction false} CountCharAppend(a: string, b: string, c: char)
    ensures CountChar(a + b, c) == CountChar(a, c) + CountChar(b, c)
  {
    if a != [] {
      assert (a + b)[0] == a[0];
      assert (a + b)[1..] == a[1..] + b;
      CountCharAppend(a[1..], b, c);
    } else {
      assert a + b == b;
    }
  }

  /** The level as the source computes it for the walk's root string:
      `root.replace(folder_path, '').count(os.sep)`. */
  function LevelAsWritten(folder: string, walkRoot: string): nat
    requires folder != []
  {
    CountChar(ReplaceAll(walkRoot, folder, ""), '/')
  }

  /** Deleting occurrences of a target that holds no c deletes no c. */
  lemma {:induction false} DeletionKeepsCount(s: string, target: string, c: char)
    requires target != [] && c !in target
    ensures CountChar(ReplaceAll(s, target, ""), c) == CountChar(s, c)
    decreases |s|
  {
    if StartsWith(s, target) {
      DeletionKeepsCount(s[|target|..], target, c);
      assert s == target + s[|target|..];
      CountCharAppend(target, s[|target|..], c);
      CountCharAbsent(target, c);
      assert "" + ReplaceAll(s[|target|..], target, "") == ReplaceAll(s[|target|..], target, "");
    } else if s != [] {
      DeletionKeepsCount(s[1..], target, c);
      CountCharAppend([s[0]], ReplaceAll(s[1..], target, ""), c);
    }
  }

  lemma {:induction false} CountCharAbsent(s: string, c: char)
    requires c !in s
    ensures CountChar(s, c) == 0
  {
    if s != [] {
      assert c !in s[1..];
      CountCharAbsent(s[1..], c);
    }
  }

  /** Joining n names that hold no `/` puts n - 1 of them in. */
  lemma {:induction false} SeparatorsOfJoin(parts: seq<string>)
    requires parts != [] && forall k :: 0 <= k < |parts| ==> '/' !in parts[k]
    ensures CountChar(Join(parts, "/"), '/') == |parts| - 1
  {
    CountCharAbsent(parts[0], '/');
    if |parts| > 1 {
      SeparatorsOfJoin(parts[1..]);
      CountCharAppend(parts[0], "/", '/');
      CountCharAppend(parts[0] + "/", Join(parts[1..], "/"), '/');
    }
  }

  /** For a folder given as one plain name the source's level is the
      depth below the root, the level the model uses. */
  lemma LevelOfPlainFolder(folder: string, rel: seq<string>)
    requires folder != [] && '/' !in folder
    requires forall k :: 0 <= k < |rel| ==> '/' !in rel[k]
    ensures LevelAsWritten(folder, Join([folder] + rel, "/")) == |rel|
  {
    var parts := [folder] + rel;
    forall k | 0 <= k < |parts| ensures '/' !in parts[k] {
      if k > 0 {
        assert parts[k] == rel[k - 1];
      }
    }
    DeletionKeepsCount(Join(parts, "/"), folder, '/');
    SeparatorsOfJoin(parts);
  }

  /** A folder given with a trailing separator flattens the tree: os.walk
      names the child `sub` of `proj/` as `proj/sub`, and the source gives it
      level 0, the level of the root itself, although it lies one level
      deeper. */
  lemma TrailingSeparatorFlattensLevels()
    ensures LevelAsWritten("proj/", "proj/") == 0
    ensures LevelAsWritten("proj/", "proj/sub") == 0
  {
    assert StartsWith("proj/", "proj/");
    assert "proj/"[5..] == [];
    assert ReplaceAll("proj/", "proj/", "") == "";
    assert StartsWith("proj/sub", "proj/");
    assert "proj/sub"[5..] == "sub";
    ReplaceAllKeepsPrefix("sub", "", "proj/", "");
    assert "sub" + "" == "sub";
    assert ReplaceAll("proj/sub", "proj/", "") == "sub";
  }

  /** One line of `_generate_file_entries`, one level deeper than its
      directory. */
  function FileEntry(rel: seq<string>, name: string): string {
    Repeat(' ', 4 * (|rel| + 1)) + name + "\n"
  }

  /** The depth of an entry can be read back from its indentation: a
      directory line at depth d starts with exactly 4*d spaces and the
      lines of its files with 4*(d+1), provided the names themselves do
      not start with a space. */
  lemma EntryIndentIsDepth(root: seq<string>, rel: seq<string>, name: string)
    requires Basename(root, rel) == [] || Basename(root, rel)[0] != ' '
    requires name != [] && name[0] != ' '
    ensures LeadingSpaces(DirectoryEntry(root, rel)) == 4 * |rel|
    ensures LeadingSpaces(FileEntry(rel, name)) == 4 * (|rel| + 1)
  {
    var b := Basename(root, rel);
    assert Repeat(' ', 4 * |rel|) + b + "/\n" == Repeat(' ', 4 * |rel|) + (b + "/\n");
    LeadingSpacesOfIndent(4 * |rel|, b + "/\n");
    assert Repeat(' ', 4 * (|rel| + 1)) + name + "\n" == Repeat(' ', 4 * (|rel| + 1)) + (name + "\n");
    LeadingSpacesOfIndent(4 * (|rel| + 1), name + "\n");
  }

  /** The files of the directory at rel that `_should_exclude` lets
      through, in listing order. */
  function KeptFiles(r: Rules, root: seq<string>, rel: seq<string>, fs: seq<File>): (kept: seq<File>)
    ensures |kept| <= |fs|
  {
    if fs == [] then []
    else if !ShouldExclude(r, root, rel + [fs[0].name]) then [fs[0]] + KeptFiles(r, root, rel, fs[1..])
    else KeptFiles(r, root, rel, fs[1..])
  }

  /** A file is kept exactly when it is listed and not excluded. */
  lemma {:induction false} KeptFilesMembers(r: Rules, root: seq<string>, rel: seq<string>, fs: seq<File>, f: File)
    ensures f in KeptFiles(r, root, rel, fs) <==> f in fs && !ShouldExclude(r, root, rel + [f.name])
  {
    if fs != [] {
      KeptFilesMembers(r, root, rel, fs[1..], f);
    }
  }

  /** The lines of the given files, one per file. */
  function FileLines(rel: seq<string>, fs: seq<File>): string {
    if fs == [] then "" else FileEntry(rel, fs[0].name) + FileLines(rel, fs[1..])
  }

  lemma {:induction false} KeptFilesAppend(r: Rules, root: seq<string>, rel: seq<string>, a: seq<File>, b: seq<File>)
    ensures KeptFiles(r, root, rel, a + b) == KeptFiles(r, root, rel, a) + KeptFiles(r, root, rel, b)
  {
    if a == [] {
      assert a + b == b;
    } else {
      assert (a + b)[0] == a[0];
      assert (a + b)[1..] == a[1..] + b;
      KeptFilesAppend(r, root, rel, a[1..], b);
    }
  }

  lemma {:induction false} FileLinesAppend(rel: seq<string>, a: seq<File>, b: seq<File>)
    ensures FileLines(rel, a + b) == FileLines(rel, a) + FileLines(rel, b)
  {
    if a == [] {
      assert a + b == b;
    } else {
      assert (a + b)[0] == a[0];
      assert (a + b)[1..] == a[1..] + b;
      var head := FileEntry(rel, a[0].name);
      FileLinesAppend(rel, a[1..], b);
      ConcatAssoc(head, FileLines(rel, a[1..]), FileLines(rel, b));
    }
  }

  /** A kept file adds itself, and so its line, to the kept files before it. */
  lemma KeptFileStep(r: Rules, root: seq<string>, rel: seq<string>, fs: seq<File>, i: nat)
    requires i < |fs| && !ShouldExclude(r, root, rel + [fs[i].name])
    ensures KeptFiles(r, root, rel, fs[..i + 1]) == KeptFiles(r, root, rel, fs[..i]) + [fs[i]]
    ensures FileLines(rel, KeptFiles(r, root, rel, fs[..i + 1]))
            == FileLines(rel, KeptFiles(r, root, rel, fs[..i])) + FileEntry(rel, fs[i].name)
  {
    var f := fs[i];
    assert fs[..i + 1] == fs[..i] + [f];
    KeptFilesAppend(r, root, rel, fs[..i], [f]);
    assert [f][1..] == [];
    FileLinesAppend(rel, KeptFiles(r, root, rel, fs[..i]), [f]);
  }

  /** An excluded file leaves the kept files as they were. */
  lemma DroppedFileStep(r: Rules, root: seq<string>, rel: seq<string>, fs: seq<File>, i: nat)
    requires i < |fs| && ShouldExclude(r, root, rel + [fs[i].name])
    ensures KeptFiles(r, root, rel, fs[..i + 1]) == KeptFiles(r, root, rel, fs[..i])
  {
    var f := fs[i];
    assert fs[..i + 1] == fs[..i] + [f];
    KeptFilesAppend(r, root, rel, fs[..i], [f]);
    assert [f][1..] == [];
    assert KeptFiles(r, root, rel, fs[..i]) + [] == KeptFiles(r, root, rel, fs[..i]);
  }

  /** The tree text the tree pass adds for the visited frames vs: each
      directory's line followed by the lines of its kept files. */
  function TreeText(r: Rules, root: seq<string>, vs: seq<Frame>): string {
    if vs == [] then "" else DirectoryLines(r, root, vs[0]) + TreeText(r, root, vs[1..])
  }

  /** What the tree pass writes for one directory it does not skip. */
  function DirectoryLines(r: Rules, root: seq<string>, v: Frame): string {
    DirectoryEntry(root, v.rel) + FileLines(v.rel, KeptFiles(r, root, v.rel, v.dir.files))
  }

  lemma {:induction false} TreeTextAppend(r: Rules, root: seq<string>, a: seq<Frame>, b: seq<Frame>)
    ensures TreeText(r, root, a + b) == TreeText(r, root, a) + TreeText(r, root, b)
  {
    if a == [] {
      assert a + b == b;
    } else {
      assert (a + b)[0] == a[0];
      assert (a + b)[1..] == a[1..] + b;
      var head := DirectoryLines(r, root, a[0]);
      TreeTextAppend(r, root, a[1..], b);
      ConcatAssoc(head, TreeText(r, root, a[1..]), TreeText(r, root, b));
    }
  }

  /** Visiting one more frame adds its directory line and the lines of
      its kept files. */
  lemma TreeTextStep(r: Rules, root: seq<string>, done: seq<Frame>, v: Frame)
    ensures TreeText(r, root, done + [v])
            == TreeText(r, root, done) + DirectoryLines(r, root, v)
  {
    TreeTextAppend(r, root, done, [v]);
    assert [v][1..] == [];
  }

  /** The text `_parse_folder` returns for the tree under `root`: nothing
      when the root itself is excluded, otherwise the lines of the pruned
      walk. */
  function FolderTree(r: Rules, root: seq<string>, top: Dir): string {
    if ShouldExclude(r, root, []) then ""
    else TreeText(r, root, Visits(r, root, TreePruning, Frame([], top)))
  }

  /** The record layout shared by every file entry of the contents
      section: a blank line, the path, the `File type:` line, the body and
      the `File End` footer between two delimiters. */
  function Record(path: string, fileType: string, body: string): string {
    "\n\n" + (path + ("\n" + TypedBody(fileType, body)))
  }

  /** The part of a record after the path line. */
  function TypedBody(fileType: string, body: string): string {
    "File type: " + (fileType + ("\n" + (body + Footer)))
  }

  const Footer: string := "\n\n" + Dashes + "\nFile End\n" + Dashes + "\n"

  /** `os.path.splitext(file_path)[1] or 'no extension'` */
  function FileTypeLabel(ext: string): string {
    if ext == "" then "no extension" else ext
  }

  /** The label loses nothing: a splitext extension is empty or starts
      with a dot, so "no extension" can only stand for the empty one. */
  lemma FileTypeLabelInjective(name1: string, name2: string)
    ensures FileTypeLabel(Extension(name1)) == FileTypeLabel(Extension(name2))
            <==> Extension(name1) == Extension(name2)
  {
  }

  /** The parts of a record, read back from its text. */
  datatype RecordParts = RecordParts(path: string, fileType: string, body: string)

  /** Reads a record back: the path up to the first newline after the
      leading blank line, the type up to the next newline, the body up to
      the footer. */
  function ParseRecord(s: string): Option<RecordParts> {
    if !StartsWith(s, "\n\n") then None
    else
      match Find(s[2..], "\n")
      case None => None
      case Some(i) => ParseTypeLine(s[2..][..i], s[2..][i + 1..])
  }

  function ParseTypeLine(path: string, s: string): Option<RecordParts> {
    if !StartsWith(s, "File type: ") then None
    else
      match Find(s[11..], "\n")
      case None => None
      case Some(k) => ParseBody(path, s[11..][..k], s[11..][k + 1..])
  }

  function ParseBody(path: string, fileType: string, s: string): Option<RecordParts> {
    if !EndsWith(s, Footer) then None
    else Some(RecordParts(path, fileType, s[..|s| - |Footer|]))
  }

  /** The first newline of a + "\n" + b, when a holds none, ends a. */
  lemma FirstNewline(a: string, b: string)
    requires '\n' !in a
    ensures Find(a + ("\n" + b), "\n") == Some(|a|)
    ensures (a + ("\n" + b))[..|a|] == a && (a + ("\n" + b))[|a| + 1..] == b
  {
    FindAbsentChar(a, '\n');
    FindInConcat(a, "\n" + b, "\n");
  }

  lemma BodyRoundTrip(path: string, fileType: string, body: string)
    ensures ParseBody(path, fileType, body + Footer) == Some(RecordParts(path, fileType, body))
  {
  }

  lemma TypeLineRoundTrip(path: string, fileType: string, body: string)
    requires '\n' !in fileType
    ensures ParseTypeLine(path, TypedBody(fileType, body)) == Some(RecordParts(path, fileType, body))
  {
    var s := TypedBody(fileType, body);
    assert s[..11] == "File type: ";
    assert s[11..] == fileType + ("\n" + (body + Footer));
    FirstNewline(fileType, body + Footer);
    BodyRoundTrip(path, fileType, body);
  }

  /** The record layout is unambiguous: a record whose path and type hold
      no newline gives back its path, its type and its body, whatever the
      body holds. */
  lemma RecordRoundTrip(path: string, fileType: string, body: string)
    requires '\n' !in path && '\n' !in fileType
    ensures ParseRecord(Record(path, fileType, body)) == Some(RecordParts(path, fileType, body))
  {
    var rec := Record(path, fileType, body);
    assert rec[2..] == path + ("\n" + TypedBody(fileType, body));
    FirstNewline(path, TypedBody(fileType, body));
    TypeLineRoundTrip(path, fileType, body);
  }

  const OpenMarker: string := "(IMAGE_MARKER)"
  const CloseMarker: string := "(/IMAGE_MARKER)"

  /** The record of an image in docx mode: its absolute path between the
      two markers. */
  function ImageRecord(absPath: string): string {
    "\n\n" + OpenMarker + absPath + CloseMarker + "\n"
  }

  /** `_process_single_file` for a file that the walk reached: None when
      excluded, the image record in docx mode for an image, otherwise the
      record of its text. The text is whatever `_get_file_contents`
      delivered. */
  function ProcessSingleFile(r: Rules, root: seq<string>, absRoot: seq<string>, outputType: string,
                             rel: seq<string>, f: File): Option<string>
  {
    if ShouldExclude(r, root, rel + [f.name]) then None
    else if outputType == "docx" && IsImageFile(f.name) then Some(ImageRecord(Join(absRoot + rel + [f.name], "/")))
    else Some(Record(Join(rel + [f.name], "/"), FileTypeLabel(Extension(f.name)), f.text))
  }

  /** The records of the files of one directory, in listing order. */
  function FileRecords(r: Rules, root: seq<string>, absRoot: seq<string>, outputType: string,
                       rel: seq<string>, fs: seq<File>): string
  {
    if fs == [] then ""
    else
      var head := match ProcessSingleFile(r, root, absRoot, outputType, rel, fs[0])
                  case None => "" case Some(rec) => rec;
      head + FileRecords(r, root, absRoot, outputType, rel, fs[1..])
  }

  lemma {:induction false} FileRecordsAppend(r: Rules, root: seq<string>, absRoot: seq<string>, outputType: string,
                                             rel: seq<string>, a: seq<File>, b: seq<File>)
    ensures FileRecords(r, root, absRoot, outputType, rel, a + b)
            == FileRecords(r, root, absRoot, outputType, rel, a) + FileRecords(r, root, absRoot, outputType, rel, b)
  {
    if a == [] {
      assert a + b == b;
    } else {
      assert (a + b)[0] == a[0];
      assert (a + b)[1..] == a[1..] + b;
      var head := match ProcessSingleFile(r, root, absRoot, outputType, rel, a[0]) case None => "" case Some(rec) => rec;
      FileRecordsAppend(r, root, absRoot, outputType, rel, a[1..], b);
      ConcatAssoc(head, FileRecords(r, root, absRoot, outputType, rel, a[1..]), FileRecords(r, root, absRoot, outputType, rel, b));
    }
  }

  /** The records of every visited frame. */
  function RecordsText(r: Rules, root: seq<string>, absRoot: seq<string>, outputType: string, vs: seq<Frame>): string {
    if vs == [] then ""
    else FileRecords(r, root, absRoot, outputType, vs[0].rel, vs[0].dir.files)
         + RecordsText(r, root, absRoot, outputType, vs[1..])
  }

  lemma {:induction false} RecordsTextAppend(r: Rules, root: seq<string>, absRoot: seq<string>, outputType: string,
                                             a: seq<Frame>, b: seq<Frame>)
    ensures RecordsText(r, root, absRoot, outputType, a + b)
            == RecordsText(r, root, absRoot, outputType, a) + RecordsText(r, root, absRoot, outputType, b)
  {
    if a == [] {
      assert a + b == b;
    } else {
      var head := FileRecords(r, root, absRoot, outputType, a[0].rel, a[0].dir.files);
      assert (a + b)[0] == a[0];
      assert (a + b)[1..] == a[1..] + b;
      RecordsTextAppend(r, root, absRoot, outputType, a[1..], b);
      ConcatAssoc(head, RecordsText(r, root, absRoot, outputType, a[1..]), RecordsText(r, root, absRoot, outputType, b));
    }
  }

  /** Visiting one more frame adds the records of its files. */
  lemma RecordsTextStep(r: Rules, root: seq<string>, absRoot: seq<string>, outputType: string, done: seq<Frame>, v: Frame)
    ensures RecordsText(r, root, absRoot, outputType, done + [v])
            == RecordsText(r, root, absRoot, outputType, done) + FileRecords(r, root, absRoot, outputType, v.rel, v.dir.files)
  {
    RecordsTextAppend(r, root, absRoot, outputType, done, [v]);
    assert [v][1..] == [];
  }

  /** The text `_process_files` returns for the tree under `root`. */
  function FolderContents(r: Rules, root: seq<string>, absRoot: seq<string>, outputType: string, top: Dir): string {
    if ShouldExclude(r, root, []) then ""
    else RecordsText(r, root, absRoot, outputType, Visits(r, root, ContentPruning, Frame([], top)))
  }

  const Header: string := "Folder Structure\n" + Dashes + "\n"
  const Middle: string := "\n\nFile Contents\n" + Dashes + "\n"

  /** The layout of `get_text`. */
  function Document(tree: string, contents: string): string {
    Header + tree + Middle + contents
  }

  /** What a Word document is made of when the text is written to one:
      paragraphs, and pictures named by path. Whether the picture file can
      be loaded is a matter for the document library. */
  datatype Block = Paragraph(text: string) | Picture(path: string)

  /** The paragraph `get_file` adds for a piece of text, unless it is
      blank. */
  function TextBlock(t: string): seq<Block> {
    if Strip(t) != "" then [Paragraph(t)] else []
  }

  /** One segment after an opening marker: without a closing marker it is
      dropped; otherwise the stripped text before the first closing marker
      names a picture and the remainder becomes a paragraph. */
  function SegmentBlocks(seg: string): seq<Block> {
    match Find(seg, CloseMarker)
    case None => []
    case Some(i) => [Picture(Strip(seg[..i]))] + TextBlock(seg[i + |CloseMarker|..])
  }

  function SegmentsBlocks(segs: seq<string>): seq<Block> {
    if segs == [] then [] else SegmentBlocks(segs[0]) + SegmentsBlocks(segs[1..])
  }

  lemma {:induction false} SegmentsBlocksAppend(a: seq<string>, b: seq<string>)
    ensures SegmentsBlocks(a + b) == SegmentsBlocks(a) + SegmentsBlocks(b)
  {
    if a == [] {
      assert a + b == b;
    } else {
      assert (a + b)[0] == a[0];
      assert (a + b)[1..] == a[1..] + b;
      SegmentsBlocksAppend(a[1..], b);
      BlocksAssoc(SegmentBlocks(a[0]), SegmentsBlocks(a[1..]), SegmentsBlocks(b), SegmentsBlocks(a[1..] + b));
    }
  }

  /** Reading one more segment adds its blocks. */
  lemma SegmentsBlocksStep(segs: seq<string>, k: nat)
    requires k < |segs|
    ensures SegmentsBlocks(segs[..k + 1]) == SegmentsBlocks(segs[..k]) + SegmentBlocks(segs[k])
  {
    SegmentsBlocksAppend(segs[..k], [segs[k]]);
    assert segs[..k + 1] == segs[..k] + [segs[k]];
    assert [segs[k]][1..] == [];
  }

  /** The blocks the docx branch of `get_file` adds for text. */
  function DocxBlocks(text: string): seq<Block> {
    var segs := Split(text, OpenMarker);
    TextBlock(segs[0]) + SegmentsBlocks(segs[1..])
  }

  /** Neither marker occurs in the other, and '(' opens each of them only
      at the start. */
  lemma MarkerFacts()
    ensures forall k :: 1 <= k < |OpenMarker| ==> OpenMarker[k] != '('
    ensures forall k :: 1 <= k < |CloseMarker| ==> CloseMarker[k] != '('
    ensures forall k :: 0 <= k < |OpenMarker| ==> OpenMarker[k] != '\n'
    ensures Find(CloseMarker, OpenMarker) == None
    ensures Find(OpenMarker, OpenMarker) == Some(0)
    ensures Find(CloseMarker, CloseMarker) == Some(0)
  {
    OpenMarkerChars();
    CloseMarkerChars();
    CloseMarkerHoldsNoOpenMarker();
    FindAtStart(OpenMarker, OpenMarker);
    FindAtStart(CloseMarker, CloseMarker);
  }

  /** Only the first character of the opening marker is `(`, and none is
      a newline. */
  lemma OpenMarkerChars()
    ensures forall k :: 1 <= k < |OpenMarker| ==> OpenMarker[k] != '('
    ensures forall k :: 0 <= k < |OpenMarker| ==> OpenMarker[k] != '\n'
  {
  }

  /** Only the first character of the closing marker is `(`. */
  lemma CloseMarkerChars()
    ensures forall k :: 1 <= k < |CloseMarker| ==> CloseMarker[k] != '('
  {
  }

  /** A string begins with itself. */
  lemma FindAtStart(s: string, x: string)
    requires x != [] && |x| <= |s| && s[..|x|] == x
    ensures Find(s, x) == Some(0)
  {
  }

  lemma CloseMarkerHoldsNoOpenMarker()
    ensures Find(CloseMarker, OpenMarker) == None
  {
    var tail := CloseMarker[1..];
    assert CloseMarker[..|OpenMarker|] != OpenMarker by {
      assert CloseMarker[1] != OpenMarker[1];
    }
    assert tail == "/IMAGE_MARKER)";
    assert Find(tail, OpenMarker) == None by {
      assert tail[..|OpenMarker|][0] != OpenMarker[0];
      assert |tail[1..]| < |OpenMarker|;
    }
  }

  /** A character that cannot start x in front of b does not change where
      x first occurs. */
  lemma FindAfterChar(c: char, b: string, x: string)
    requires x != [] && c != x[0]
    ensures Find(b, x).None? ==> Find([c] + b, x) == None
    ensures Find(b, x).Some? ==> Find([c] + b, x) == Some(1 + Find(b, x).value)
  {
    var s := [c] + b;
    assert s[1..] == b;
    if |x| <= |s| {
      assert s[..|x|][0] != x[0];
    }
  }

  /** Splitting at a first occurrence of the separator at |a|. */
  lemma SplitAtFirst(a: string, x: string, t: string)
    requires x != [] && Find(a + x + t, x) == Some(|a|)
    ensures Split(a + x + t, x) == [a] + Split(t, x)
  {
    var s := a + x + t;
    assert s[..|a|] == a;
    assert s[|a| + |x|..] == t;
  }

  /** In text that holds no opening marker, the one opening an image
      record is the first. */
  lemma FirstOpenMarker(a: string, seg: string)
    requires Find(a, OpenMarker) == None
    ensures Find((a + "\n\n") + OpenMarker + seg, OpenMarker) == Some(|a| + 2)
  {
    OpenMarkerChars();
    assert Find("\n\n", OpenMarker) == None;
    FindInConcat(a, "\n\n", OpenMarker);
    var v := OpenMarker + seg;
    FindAtStart(v, OpenMarker);
    FindInConcat(a + "\n\n", v, OpenMarker);
    ConcatAssoc(a + "\n\n", OpenMarker, seg);
  }

  /** The segment after the record's opening marker holds no other. */
  lemma NoOpenMarkerInSegment(p: string, b: string)
    requires Find(p, OpenMarker) == None && Find(b, OpenMarker) == None
    ensures Find(p + (CloseMarker + ("\n" + b)), OpenMarker) == None
  {
    MarkerFacts();
    FindAfterChar('\n', b, OpenMarker);
    assert ['\n'] + b == "\n" + b;
    FindInConcat(CloseMarker, "\n" + b, OpenMarker);
    FindInConcat(p, CloseMarker + ("\n" + b), OpenMarker);
  }

  /** The segment's first closing marker is the record's own. */
  lemma CloseMarkerInSegment(p: string, rest: string)
    requires Find(p, CloseMarker) == None
    ensures Find(p + (CloseMarker + rest), CloseMarker) == Some(|p|)
  {
    MarkerFacts();
    var v := CloseMarker + rest;
    assert v[..|CloseMarker|] == CloseMarker;
    assert Find(v, CloseMarker) == Some(0);
    FindInConcat(p, v, CloseMarker);
  }

  /** The blocks of the segment of a clean image path. */
  lemma ImageSegmentBlocks(p: string, b: string)
    requires Find(p, CloseMarker) == None && Strip(p) == p
    ensures SegmentBlocks(p + (CloseMarker + ("\n" + b))) == [Picture(p)] + TextBlock("\n" + b)
  {
    var seg := p + (CloseMarker + ("\n" + b));
    CloseMarkerInSegment(p, "\n" + b);
    assert seg[..|p|] == p;
    assert seg[|p| + |CloseMarker|..] == "\n" + b;
  }

  lemma BlocksAssoc(x: seq<Block>, y: seq<Block>, z: seq<Block>, w: seq<Block>)
    requires w == y + z
    ensures x + w == x + y + z
  {
  }

  /** The blocks of a text that splits into a first piece and one segment. */
  lemma TwoSegmentBlocks(text: string, first: string, seg: string)
    requires Split(text, OpenMarker) == [first, seg]
    ensures DocxBlocks(text) == TextBlock(first) + SegmentsBlocks([seg])
  {
  }

  lemma OneSegmentBlocks(seg: string)
    ensures SegmentsBlocks([seg]) == SegmentBlocks(seg)
  {
    assert [seg][1..] == [];
  }

  /** Where the text around an image record splits at the opening marker. */
  lemma SplitAroundImage(a: string, p: string, b: string)
    requires Find(a, OpenMarker) == None && Find(b, OpenMarker) == None
    requires Find(p, OpenMarker) == None
    ensures Split(a + ImageRecord(p) + b, OpenMarker)
            == [a + "\n\n", p + (CloseMarker + ("\n" + b))]
  {
    var seg := p + (CloseMarker + ("\n" + b));
    var text := (a + "\n\n") + OpenMarker + seg;
    assert a + ImageRecord(p) + b == text;
    FirstOpenMarker(a, seg);
    SplitAtFirst(a + "\n\n", OpenMarker, seg);
    NoOpenMarkerInSegment(p, b);
    assert Split(seg, OpenMarker) == [seg];
  }

  /** An image record placed between two pieces of text that hold no
      opening marker comes back as exactly its picture, between the
      paragraphs of the surrounding text: the marker encoding and the
      docx split are inverse on such a path. */
  lemma ImageRecordInText(a: string, p: string, b: string)
    requires Find(a, OpenMarker) == None && Find(b, OpenMarker) == None
    requires Find(p, OpenMarker) == None && Find(p, CloseMarker) == None
    requires Strip(p) == p
    ensures DocxBlocks(a + ImageRecord(p) + b)
            == TextBlock(a + "\n\n") + [Picture(p)] + TextBlock("\n" + b)
  {
    var seg := p + (CloseMarker + ("\n" + b));
    SplitAroundImage(a, p, b);
    TwoSegmentBlocks(a + ImageRecord(p) + b, a + "\n\n", seg);
    OneSegmentBlocks(seg);
    ImageSegmentBlocks(p, b);
    BlocksAssoc(TextBlock(a + "\n\n"), [Picture(p)], TextBlock("\n" + b), SegmentsBlocks([seg]));
  }

  /** `get_file` in docx mode recovers the path of an image record. */
  lemma ImageMarkerRoundTrip(p: string)
    requires Find(p, OpenMarker) == None && Find(p, CloseMarker) == None
    requires Strip(p) == p
    ensures DocxBlocks(ImageRecord(p)) == [Picture(p)]
  {
    ImageRecordInEmptyText(p);
    assert "" + ImageRecord(p) + "" == ImageRecord(p);
    BlankEndsOfImageRecord();
    PictureAlone(TextBlock("" + "\n\n"), p, TextBlock("\n" + ""));
  }

  lemma ImageRecordInEmptyText(p: string)
    requires Find(p, OpenMarker) == None && Find(p, CloseMarker) == None
    requires Strip(p) == p
    ensures DocxBlocks("" + ImageRecord(p) + "") == TextBlock("" + "\n\n") + [Picture(p)] + TextBlock("\n" + "")
  {
    assert Find("", OpenMarker) == None;
    ImageRecordInText("", p, "");
  }

  lemma BlankEndsOfImageRecord()
    ensures TextBlock("" + "\n\n") == [] && TextBlock("\n" + "") == []
  {
    assert "" + "\n\n" == "\n\n" && "\n" + "" == "\n";
    BlankTextNoBlock("\n\n");
    BlankTextNoBlock("\n");
  }

  lemma BlankTextNoBlock(t: string)
    requires forall k :: 0 <= k < |t| ==> IsSpace(t[k])
    ensures TextBlock(t) == []
  {
    StripAllSpace(t);
  }

  lemma PictureAlone(x: seq<Block>, p: string, y: seq<Block>)
    requires x == [] && y == []
    ensures x + [Picture(p)] + y == [Picture(p)]
  {
  }

  /** Text with no opening marker becomes one paragraph, or nothing when
      it is blank. */
  lemma PlainTextIsOneParagraph(t: string)
    requires Find(t, OpenMarker) == None
    ensures DocxBlocks(t) == TextBlock(t)
  {
  }

  /** What `get_file` writes: the text itself, or the blocks of a Word
      document. */
  datatype Output = TextFile(text: string) | WordFile(blocks: seq<Block>)

  const InvalidOutputType: string := "Invalid output type. Supported types: txt, docx"
}
