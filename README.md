# codebase_to_text, modelled in Dafny

codebase_to_text turns a directory tree (or a cloned GitHub repository)
into one document. The document has two sections:

- a "Folder Structure" section, with one indented line per directory and
  per file;
- a "File Contents" section, with one record per file: its path, its
  type and its text.

The document is written as a text file or as a Word file. Both of the
repository's converters walk the tree twice, once per section, and
decide for every directory and file whether it is shown:

- **`CodebaseToText` in `codebase_to_text/codebase_to_text.py`** builds one
  pattern set from three sources: the comma-separated `--exclude`
  strings, a fixed default set, and the lines of an `.exclude` file. It
  tests every path against that set and the hidden-name rule. It prunes
  the walk below excluded directories. In Word mode it encodes image
  files as marker records that `get_file` splits back into pictures.
- **The older `CodebaseToText` in `codebase_to_text/cli.py`** has no
  patterns. It drops `venv` directories and, on request, hidden ones. It
  lists every file in the tree, and it records a file as binary when its
  first 1024 bytes hold a zero byte.

The model has nine modules, one per file:

| file | module | what it holds |
|---|---|---|
| `wrappers.dfy` | `Wrappers` | `Option` and `Result` |
| `strings.dfy` | `Strings` | the Python string operations the converters use (`find`, `split`, `join`, `strip`, `rstrip`, `replace`, `lower`), as recursive functions with their specifications |
| `glob.dfy` | `Glob` | `fnmatch` over `*`, `?` and literal characters, case-sensitive as on POSIX; `*` also matches `/` |
| `patterns.dfy` | `PatternStore` | the default pattern set and the three pattern sources, as functions of their inputs |
| `classifier.dfy` | `PathClassifier` | paths as component lists; `_normalize_path`, `_is_hidden_file`, `_should_exclude`, `_pattern_matches` and its two helpers, `_is_image_file`, `is_github_repo` |
| `walker.dfy` | `TreeWalker` | `os.walk` over an in-memory tree, as a pre-order visit sequence in which the caller's filter shrinks each directory's child list before the walk descends |
| `layout.dfy` | `Layout` | tree lines, file records, the two-section document, the image marker records and their split into Word blocks |
| `converter.dfy` | `Converter` | the class `CodebaseToText`: its pattern set and its `excluded_files_count` are fields its methods update; the two walks are loops over an explicit stack of pending directories |
| `legacy.dfy` | `Legacy` | the class of `cli.py` and the specification of its walk, binary test and records |

The traversal root is a component list `root`: the components of the root in normal form (see "## Left out" for a root typed otherwise). A directory or file below
it is named by `rel`, the list of names on the way down. The walk's path
string is `root + rel` joined with `/`. `_normalize_path` then yields
`rel` joined with `/`. The hidden test sees the normalized full path, as
`os.path.normpath` gives it. A root spelled `.` therefore counts as
hidden (`DotRootIsHidden`): with `exclude_hidden` and a non-empty
pattern set, such a root is excluded and both sections come out empty.

`_parse_folder` and `_process_files` are the methods
`Converter.CodebaseToText.ParseFolder` and `ProcessFiles`. Each is proved
to return a function of the tree: `FolderTree` and `FolderContents`.
The walk those functions describe is `TreeWalker.Visits`, which applies
the same child filter the methods apply in place. The `excluded_dirs`
prefix test is modelled on strings, as written in the source. The
lemmas show when it can fire:

- when the root is kept, no excluded directory is ever visited and the
  recorded set stays empty;
- when the root is excluded, every later directory lies below it and is
  skipped.

## Model

| member | source | states |
|---|---|---|
| Strings.Repeat | codebase_to_text/codebase_to_text.py:239 | `' ' * n` has length n and only that character |
| Strings.FindSpec | codebase_to_text/codebase_to_text.py:429 | `find` returns the first occurrence of x in s, and None exactly when x occurs nowhere |
| Strings.Split | codebase_to_text/codebase_to_text.py:185 | `str.split(sep)` yields at least one part; its parts joined with sep give back the string; no part holds sep |
| Strings.SplitJoin | codebase_to_text/codebase_to_text.py:175 | splitting at a one-character separator undoes joining parts that do not hold it |
| Strings.SplitAtChar | codebase_to_text/codebase_to_text.py:86 | `split` cuts at the first separator and goes on with the rest |
| Strings.JoinAppend | codebase_to_text/codebase_to_text.py:187 | `'/'.join` of two non-empty lists is their joins around one separator |
| Strings.ReplaceAllKeepsPrefix | codebase_to_text/codebase_to_text.py:182 | `replace` leaves a prefix untouched when the prefix cannot start the target |
| Strings.StripSpec | codebase_to_text/codebase_to_text.py:87 | `strip()` yields a string with no edge whitespace that is the input with only whitespace removed from its two ends |
| Strings.StripUnpadded | codebase_to_text/codebase_to_text.py:118 | `strip()` leaves a string without edge whitespace unchanged |
| Strings.StripKeepsFirst | codebase_to_text/codebase_to_text.py:119 | a stripped line keeps its first character when that is not whitespace, so `startswith('#')` sees it |
| Strings.StripAllSpace | codebase_to_text/codebase_to_text.py:88 | a whitespace-only piece strips to the empty string |
| Strings.RStripChar | codebase_to_text/codebase_to_text.py:165 | `rstrip('/')` removes exactly the trailing run of the character and keeps everything before it |
| Strings.AsciiLower | codebase_to_text/codebase_to_text.py:340 | lowering keeps the length, leaves no ASCII capital, turns each capital into the same letter in lower case and leaves every other character unchanged |
| Strings.AsciiLowerIdempotent | codebase_to_text/codebase_to_text.py:340 | lowering an already lowered string changes nothing |
| Glob.StarMatchesAll | codebase_to_text/codebase_to_text.py:160 | `*` matches every string, `/` included |
| Glob.LiteralMatchesItself | codebase_to_text/codebase_to_text.py:160 | a pattern without wildcards matches exactly itself |
| Glob.QuestionMatchesOneChar | codebase_to_text/codebase_to_text.py:160 | `?` matches exactly the one-character strings |
| Glob.PrefixStar | codebase_to_text/codebase_to_text.py:160 | `lit*` matches exactly the strings that start with lit |
| Glob.StarSuffix | codebase_to_text/codebase_to_text.py:160 | `*lit` matches exactly the strings that end with lit |
| PatternStore.UnionOfIff | codebase_to_text/codebase_to_text.py:85-89 | the patterns of a list of sources are exactly those of some element of the list |
| PatternStore.AssembledPatternsHoldAllSources | codebase_to_text/codebase_to_text.py:72-76 | the assembled set holds the default set, every CLI string's pieces and every `.exclude` line's pattern, and is never empty |
| PatternStore.CliOrderIrrelevant | codebase_to_text/codebase_to_text.py:81-89 | the CLI patterns depend only on which strings were given, not on their order or repetition |
| PatternStore.ArgPatternsNoComma | codebase_to_text/codebase_to_text.py:86-89 | a string without a comma contributes only its own stripped piece |
| PatternStore.ArgPatternsAtComma | codebase_to_text/codebase_to_text.py:86-89 | the text before the first comma is one piece; the rest is split again |
| PatternStore.ArgPatternsComma | codebase_to_text/codebase_to_text.py:86-89 | the patterns of `x,y` are those of x together with those of y |
| PatternStore.CommaIsSeparateFlags | codebase_to_text/codebase_to_text.py:81-89 | `--exclude "x,y"` gives the same patterns as `--exclude x --exclude y` |
| PatternStore.FilePatternsOneLine | codebase_to_text/codebase_to_text.py:117-120 | a file of one line gives that line's pattern |
| PatternStore.FileLinesUnion | codebase_to_text/codebase_to_text.py:117-120 | a file's patterns are its first line's pattern together with those of the remaining lines |
| PatternStore.CommentsAndBlanksIgnored | codebase_to_text/codebase_to_text.py:118-119 | a line that strips to a `#` comment, or is all whitespace, adds no pattern |
| PatternStore.PatternLine | codebase_to_text/codebase_to_text.py:118-120 | a non-comment line without edge whitespace adds exactly itself |
| PatternStore.CommentLine | codebase_to_text/codebase_to_text.py:119 | a line starting with `#` adds nothing |
| PatternStore.BlankFirstLine | codebase_to_text/codebase_to_text.py:118-119 | an empty line adds nothing |
| PatternStore.PatternThenNewline | codebase_to_text/codebase_to_text.py:117-120 | a file holding one pattern line gives exactly that pattern |
| PatternStore.CommentedExcludeFile | codebase_to_text/codebase_to_text.py:117-120 | a comment, a blank line and a pattern give exactly that pattern |
| PatternStore.SourceIrrelevant | codebase_to_text/codebase_to_text.py:81-120 | a plain pattern has the same effect whether it comes from the CLI or from the `.exclude` file |
| PathClassifier.PathStringExtends | codebase_to_text/codebase_to_text.py:290 | the walk path of a directory is a string prefix of the walk path of everything below it |
| PathClassifier.FullPath | codebase_to_text/codebase_to_text.py:281 | the normalized full path holds every component below the root |
| PathClassifier.NormalizedPathComponents | codebase_to_text/codebase_to_text.py:127-136 | splitting the normalized path at `/` gives back the components below the root |
| PathClassifier.HiddenPathIff | codebase_to_text/codebase_to_text.py:279-285 | a path is hidden exactly when some component starts with `.` or `__` |
| PathClassifier.AnyPartMatchesIff | codebase_to_text/codebase_to_text.py:173-178 | the directory-pattern test holds exactly when the glob matches some component |
| PathClassifier.AnySuffixMatchesIff | codebase_to_text/codebase_to_text.py:185-190 | the suffix loop holds exactly when the glob matches the join of some suffix from i on |
| PathClassifier.RecursiveIsSuffixSearch | codebase_to_text/codebase_to_text.py:180-190 | the `**` test holds exactly when the rewritten glob matches some suffix of the component list; the whole path is suffix 0 |
| PathClassifier.PatternMatchesComponents | codebase_to_text/codebase_to_text.py:158-171 | the four tests on the normalized string agree with the four tests on the component list: basename, whole path, some component for `dir/`, some suffix for `**` |
| PathClassifier.ShouldExcludeRule | codebase_to_text/codebase_to_text.py:138-156 | an empty set excludes nothing, hidden paths included; otherwise, with exclude_hidden, a hidden component excludes before any pattern is tried; otherwise a path is excluded exactly when some pattern hits it |
| PathClassifier.DirPatternExcludesAtAnyDepth | codebase_to_text/codebase_to_text.py:164-178 | `name/` excludes every path with a component that name matches, at any depth |
| PathClassifier.RecursivePatternOfName | codebase_to_text/codebase_to_text.py:182 | the rewrite turns `name/**` and `**/name/**` into `name/*` |
| PathClassifier.RecursivePatternExcludesInside | codebase_to_text/codebase_to_text.py:167-190 | `name/**` and `**/name/**` exclude everything strictly inside any directory called name, at any depth |
| PathClassifier.SuffixGlobExcludes | codebase_to_text/codebase_to_text.py:158-161 | `*lit` excludes every path whose last component ends with lit |
| PathClassifier.StarLiteralHasNoDoubleStar | codebase_to_text/codebase_to_text.py:167 | a pattern `*lit` never takes the `**` branch |
| PathClassifier.SuffixGlobsExcludeBySuffix | codebase_to_text/codebase_to_text.py:138-171 | with only `*lit` patterns, a top-level file is excluded exactly when its name ends with one of the literals (`*.py` excludes `test.py`, not `test.txt`) |
| PathClassifier.DotRootIsHidden | codebase_to_text/codebase_to_text.py:143-145 | a root spelled `.` is itself hidden, so with exclude_hidden and a non-empty set it is excluded |
| PathClassifier.LastDot | codebase_to_text/codebase_to_text.py:340 | the index found holds a dot and no dot follows it; None means there is no dot |
| PathClassifier.Extension | codebase_to_text/codebase_to_text.py:340 | `splitext` gives a suffix of the name that starts with its only dot and is preceded by a non-dot; it is empty only when every dot is a leading one |
| PathClassifier.ImageExtensionOfName | codebase_to_text/codebase_to_text.py:338-340 | a name `stem.ext` has extension `.ext`, and it is an image exactly when `.ext` lower-cased is one of the six image extensions |
| PathClassifier.GithubAddresses | codebase_to_text/codebase_to_text.py:469-472 | both URL prefixes are recognized whatever follows them; a path not starting with `h` or `g` is not a repository (the legacy `is_github_repo` at `codebase_to_text/cli.py:155-156` is the same test) |
| TreeWalker.ContentKeepsUnexcluded | codebase_to_text/codebase_to_text.py:329-336 | a child survives the content filter exactly when it was listed and `_should_exclude` lets it through |
| TreeWalker.TreeAndContentPruningAgree | codebase_to_text/codebase_to_text.py:221-235 | with a non-empty set, the tree pass keeps the same children as the content pass |
| TreeWalker.KeptDirsMembers | codebase_to_text/codebase_to_text.py:223-228 | a directory survives the filter exactly when it was in the list and its filter keeps it |
| TreeWalker.KeptDirsAppend | codebase_to_text/codebase_to_text.py:225-228 | the filter works element by element and keeps the list's order |
| TreeWalker.KeptDirStep | codebase_to_text/codebase_to_text.py:225-228 | each step of the filter loop appends the child exactly when it is kept |
| TreeWalker.NoPruningKeepsAll | codebase_to_text/codebase_to_text.py:197 | without a filter, os.walk descends into every child |
| TreeWalker.TreePruningIsTwoPasses | codebase_to_text/codebase_to_text.py:221-235 | the tree filter is the pattern pass followed by the hidden pass |
| TreeWalker.VisitsBelow | codebase_to_text/codebase_to_text.py:197 | every directory the walk yields lies below the directory it started from |
| TreeWalker.PruningIsFiltering | codebase_to_text/codebase_to_text.py:197-204 | the filtered walk is the unfiltered walk with every directory below a removed child dropped |
| TreeWalker.PrunedBelowRemoved | codebase_to_text/codebase_to_text.py:204 | nothing below a removed child is visited |
| TreeWalker.VisitedIff | codebase_to_text/codebase_to_text.py:197-204 | a directory of the tree is visited exactly when every directory on its way down passed its parent's filter |
| TreeWalker.TreeAndContentWalksAgree | codebase_to_text/codebase_to_text.py:300-307 | with a non-empty set, the content walk visits the same directories as the tree walk |
| Layout.LeadingSpaces | codebase_to_text/codebase_to_text.py:239-240 | the count is the length of the initial run of spaces |
| Layout.EntryIndentIsDepth | codebase_to_text/codebase_to_text.py:236-254 | a directory line is indented by 4 spaces per level below the root, and its file lines by 4 more |
| Layout.LevelOfPlainFolder | codebase_to_text/codebase_to_text.py:238 | for a root path and names without separators, the replace-and-count level is the depth below the root |
| Layout.TrailingSeparatorFlattensLevels | codebase_to_text/codebase_to_text.py:238 | a root given with a trailing `/` puts both the root and its child at level 0 |
| Layout.DeletionKeepsCount | codebase_to_text/codebase_to_text.py:238 | deleting a target without separators leaves the separator count unchanged |
| Layout.KeptFilesMembers | codebase_to_text/codebase_to_text.py:247-253 | a file gets a tree line exactly when it is listed and not excluded |
| Layout.KeptFilesAppend | codebase_to_text/codebase_to_text.py:247-253 | the file filter works element by element and keeps the listing order |
| Layout.FileLinesAppend | codebase_to_text/codebase_to_text.py:247-250 | the file lines of a concatenated list are the two lists' lines in order |
| Layout.KeptFileStep | codebase_to_text/codebase_to_text.py:249-250 | a kept file adds its own line to the directory's lines |
| Layout.DroppedFileStep | codebase_to_text/codebase_to_text.py:251-253 | an excluded file adds no line |
| Layout.TreeTextStep | codebase_to_text/codebase_to_text.py:205-206 | visiting one more directory appends its line and its file lines to the tree |
| Layout.FileTypeLabelInjective | codebase_to_text/codebase_to_text.py:368 | the `File type:` label loses nothing: `no extension` only ever stands for the empty extension |
| Layout.FirstNewline | codebase_to_text/codebase_to_text.py:367 | the path line of a record ends at its first newline when the path holds none |
| Layout.BodyRoundTrip | codebase_to_text/codebase_to_text.py:369-370 | the body of a record is recovered by removing the footer |
| Layout.TypeLineRoundTrip | codebase_to_text/codebase_to_text.py:368-370 | the type line and the body are recovered from the text after the path line |
| Layout.RecordRoundTrip | codebase_to_text/codebase_to_text.py:362-371 | a record reads back as the path, type and content it was made from, whatever the content |
| Layout.FileRecordsAppend | codebase_to_text/codebase_to_text.py:309-313 | the records of a concatenated file list are the two lists' records in order |
| Layout.RecordsTextStep | codebase_to_text/codebase_to_text.py:309-313 | visiting one more directory appends the records of its files |
| Layout.MarkerFacts | codebase_to_text/codebase_to_text.py:357 | neither marker occurs inside the other, and `(` opens each only at its start |
| Layout.SplitAtFirst | codebase_to_text/codebase_to_text.py:421 | `split` cuts at the first occurrence of the separator |
| Layout.FirstOpenMarker | codebase_to_text/codebase_to_text.py:421 | in text before an image record, the first opening marker is the record's own |
| Layout.SplitAroundImage | codebase_to_text/codebase_to_text.py:421 | splitting text that holds one image record yields the text before it and the segment after it |
| Layout.CloseMarkerInSegment | codebase_to_text/codebase_to_text.py:429-431 | the segment's first closing marker ends the image path |
| Layout.ImageSegmentBlocks | codebase_to_text/codebase_to_text.py:428-448 | the segment of an image record gives its picture, then the paragraph of the remaining text if it is not blank |
| Layout.SegmentsBlocksStep | codebase_to_text/codebase_to_text.py:428-448 | each segment's blocks are appended in order |
| Layout.BlankTextNoBlock | codebase_to_text/codebase_to_text.py:424 | whitespace-only text adds no paragraph |
| Layout.PlainTextIsOneParagraph | codebase_to_text/codebase_to_text.py:421-425 | text without an opening marker becomes that text as a single paragraph |
| Layout.ImageRecordInText | codebase_to_text/codebase_to_text.py:421-448 | an image record between texts without markers gives the text before it, the picture, then the text after it |
| Layout.ImageMarkerRoundTrip | codebase_to_text/codebase_to_text.py:355-357 | the Word split of an image record alone gives back exactly the picture of its path |
| Layout.ImageRecordInEmptyText | codebase_to_text/codebase_to_text.py:424-448 | the blank line before the marker and the newline after it produce no paragraphs |
| Converter.CountExcluded | codebase_to_text/codebase_to_text.py:216 | no more directories are counted as excluded than are visited |
| Converter.TreeExclusionsBounds | codebase_to_text/codebase_to_text.py:211-253 | an excluded root is counted at least once, verbose or not; with a kept root and verbose off, the tree pass counts nothing |
| Converter.PrunedWalkStep | codebase_to_text/codebase_to_text.py:197-202 | a directory is skipped only when the traversal root itself is excluded, and under an excluded root every later directory lies below the recorded root path, so the prefix test skips it |
| Converter.PrunedWalkVisitsNothing | codebase_to_text/codebase_to_text.py:287-292 | under an excluded root no directory escapes both tests |
| Converter.KeptWalkStep | codebase_to_text/codebase_to_text.py:197-206 | with a kept root, every pending directory is unexcluded and nothing is recorded as pruned |
| Converter.WalkNeverEntersExcluded | codebase_to_text/codebase_to_text.py:197-204 | neither walk visits a directory that has an excluded directory on its way down, or (with exclude_hidden) a hidden one |
| Converter.OutputFor | codebase_to_text/codebase_to_text.py:415-451 | `txt` gives the text itself, `docx` the blocks of its marker split; any other output type raises the `ValueError` |
| Converter.WordFileRecoversImage | codebase_to_text/codebase_to_text.py:418-448 | in a Word file an image record between texts without markers becomes its picture between their paragraphs |
| Converter.CodebaseToText.constructor | codebase_to_text/codebase_to_text.py:30-60 | the settings are stored, the count starts at 0, and the pattern set is the assembled one |
| Converter.CodebaseToText.LoadExclusionPatterns | codebase_to_text/codebase_to_text.py:72-79 | adds the CLI, default and file patterns |
| Converter.CodebaseToText.AddCliPatterns | codebase_to_text/codebase_to_text.py:81-89 | adds every non-empty stripped comma piece of every CLI string |
| Converter.CodebaseToText.AddDefaultPatterns | codebase_to_text/codebase_to_text.py:91-106 | adds the default set |
| Converter.CodebaseToText.AddFilePatterns | codebase_to_text/codebase_to_text.py:107-125 | adds nothing without a file; otherwise adds every stripped non-blank non-comment line |
| Converter.CodebaseToText.FilterExcludedDirectories | codebase_to_text/codebase_to_text.py:221-235 | leaves the order-preserving sublist of unexcluded, and with exclude_hidden unhidden, children; verbose mode counts the children dropped by a pattern |
| Converter.CodebaseToText.GenerateFileEntries | codebase_to_text/codebase_to_text.py:242-254 | emits one line per unexcluded file in listing order; verbose mode counts the excluded ones |
| Converter.CodebaseToText.HandleExcludedDirectory | codebase_to_text/codebase_to_text.py:211-219 | an excluded directory is recorded as pruned and counted once, and the walk goes on without it |
| Converter.CodebaseToText.VisitDirectory | codebase_to_text/codebase_to_text.py:204-206 | one visited directory yields its kept children and its tree lines |
| Converter.CodebaseToText.ParseFolder | codebase_to_text/codebase_to_text.py:192-209 | the tree text is the lines of the pruned pre-order walk, and the count grows by what that walk excludes |
| Converter.CodebaseToText.FilterDirectoriesForProcessing | codebase_to_text/codebase_to_text.py:329-336 | leaves the order-preserving sublist of unexcluded children |
| Converter.CodebaseToText.HandleDirectoryExclusion | codebase_to_text/codebase_to_text.py:320-327 | an excluded directory is recorded as pruned, without counting, and the walk goes on without it |
| Converter.CodebaseToText.ProcessDirectoryFiles | codebase_to_text/codebase_to_text.py:309-313 | appends, in listing order, the record of every file `_process_single_file` keeps |
| Converter.CodebaseToText.ProcessFiles | codebase_to_text/codebase_to_text.py:294-318 | the contents are the records of the files of the pruned content walk |
| Converter.CodebaseToText.GetText | codebase_to_text/codebase_to_text.py:385-409 | the document is the headers, the tree and the contents in the fixed layout |
| Converter.CodebaseToText.DocxSegments | codebase_to_text/codebase_to_text.py:419-448 | the Word blocks are those of the marker split of the text |
| Converter.CodebaseToText.ImageSegments | codebase_to_text/codebase_to_text.py:428-448 | the loop over the segments after the first appends each one's blocks in order |
| Converter.CodebaseToText.GetFile | codebase_to_text/codebase_to_text.py:411-451 | the output is the document as text, as Word blocks, or the `ValueError` |
| Legacy.Chunk | codebase_to_text/cli.py:47 | `read(1024)` gives the first 1024 bytes, or all of them when there are fewer |
| Legacy.BinaryIff | codebase_to_text/cli.py:40-54 | a file is binary exactly when it cannot be read or one of its first 1024 bytes is zero |
| Legacy.BinaryDecidedByChunk | codebase_to_text/cli.py:47-49 | two files of at least 1024 bytes that agree on their first 1024 bytes are both binary or both not, whatever follows |
| Legacy.FileLinesStep | codebase_to_text/cli.py:32-33 | every listed file adds its line, in listing order |
| Legacy.LegacyTreeTextStep | codebase_to_text/cli.py:28-33 | each visited directory appends its line and all its file lines |
| Legacy.LegacyFileRecordsStep | codebase_to_text/cli.py:78-104 | each file appends its record, or nothing when it is skipped |
| Legacy.LegacyRecordsTextStep | codebase_to_text/cli.py:70-104 | each visited directory appends the records of its files |
| Legacy.LegacyWalkAvoidsVenvAndHidden | codebase_to_text/cli.py:22-26 | the walk never enters a `venv` directory or, with exclude_hidden, a hidden one; it enters every other reachable directory |
| Legacy.HiddenFileHasNoRecord | codebase_to_text/cli.py:80-83 | with exclude_hidden, a file with a hidden component gets no record |
| Legacy.BinaryRecordOmitsContent | codebase_to_text/cli.py:86-94 | a binary file's record does not depend on its content |
| Legacy.BinaryRecordReadsBack | codebase_to_text/cli.py:86-94 | a binary file's record reads back as its path, its extension and the binary note |
| Legacy.TextRecordReadsBack | codebase_to_text/cli.py:96-104 | a text file's record reads back as its path, its extension and its whole text |
| Legacy.LegacyOutputFor | codebase_to_text/cli.py:134-142 | `txt` gives the text itself, `docx` one paragraph holding the whole text; any other output type raises the `ValueError` |
| Legacy.LegacyCodebaseToText.constructor | codebase_to_text/cli.py:10-16 | the settings are stored |
| Legacy.LegacyCodebaseToText.FilterChildren | codebase_to_text/cli.py:22-26 | keeps, in order, exactly the children not named `venv` and, with exclude_hidden, not hidden |
| Legacy.LegacyCodebaseToText.ListFiles | codebase_to_text/cli.py:31-33 | lists every file, unfiltered, one level deeper than its directory |
| Legacy.LegacyCodebaseToText.ParseFolder | codebase_to_text/cli.py:18-38 | the tree text is the lines of the filtered pre-order walk |
| Legacy.LegacyCodebaseToText.ProcessDirectoryFiles | codebase_to_text/cli.py:78-104 | appends each file's record in listing order |
| Legacy.LegacyCodebaseToText.ProcessFiles | codebase_to_text/cli.py:68-107 | the contents are the records of the files of the filtered walk |
| Legacy.LegacyCodebaseToText.GetText | codebase_to_text/cli.py:109-130 | the document is the headers, the tree and the contents in the fixed layout |
| Legacy.LegacyCodebaseToText.GetFile | codebase_to_text/cli.py:132-142 | the output is the text, one paragraph holding it, or the `ValueError` |

## Left out

- Cloning a GitHub repository, the temporary folder and its clean-up (`_clone_github_repo`, `is_temp_folder_used`, `clean_up_temp_folder`). These are external processes and file system side effects. The converter works on whatever tree it is given.
- Reading files. `_get_file_contents`, with its UTF-8 then latin-1 fallback and its error texts, becomes the `text` field of a `File`. The legacy binary read becomes the `data` field: the bytes, or None when the read fails.
- The `.exclude` file's location, its existence test and its read errors. Its text is a parameter, or None when there is none.
- `_format_file_error` and the `except` around `_process_single_file`. The error they handle comes from the file system, which the model does not have.
- The `except` branch at `codebase_to_text/cli.py:105-106`. It only prints.
- The Word document library: `Document`, `add_picture`, `save`, the existence test on the image path, and the `[Missing image …]` and `[Error …]` paragraphs. A picture block names a path; whether it can be loaded is left to the library.
- Writing the text file; `main` and its argument parsing.
- Verbose printing: `_log_tree_results`, the lines of `_load_exclusion_patterns`, and `processed_count`, which is only printed.
- `os.walk`, `os.path.join`, `relpath`, `normpath` and `abspath`. They are replaced by a tree value and `/`-separated component lists. The `ValueError` fallback of `_normalize_path` cannot arise there: it happens only on Windows, for paths on different drives.
- PathClassifier.Basename: the root is taken already normalized, as the components of `os.path.normpath(root)`; a root typed otherwise (`proj/`, `./proj`) is not modelled as typed. This has three effects. For `--input proj/`, `os.path.basename('proj/')` is empty, so the source's root line is `/` (`codebase_to_text/codebase_to_text.py:240`, `codebase_to_text/cli.py:30`) where `Layout.DirectoryEntry` writes `proj/`. For the same root, `_should_exclude` tests the root against the filename `''` (`codebase_to_text/codebase_to_text.py:149`) where the model tests `proj`, so `--input proj/ --exclude proj` keeps the root in the source and excludes it in the model. For a legacy `--input ./proj`, the record headers carry the walked path `./proj/x.py` (`codebase_to_text/cli.py:79`, `89`, `100`) where `Legacy.LegacyFileRecord` writes `proj/x.py`. `PathClassifier.PathString` is the path `os.walk` hands out only for a root in normal form.
- Layout.DirectoryEntry: the level is the depth of the directory below the root, not the source's separator count after replacing the root string. The two agree when the root and the names hold no separator (`Layout.LevelOfPlainFolder`). See Findings for a root given with a trailing `/`.
- Strings.AsciiLower: only ASCII capitals are lowered; Python's `lower()` also lowers other letters and can lengthen a string (`'İ'` becomes two characters). For `_is_image_file` the verdict is the same: the six image extensions are ASCII, and a name whose extension holds a non-ASCII character keeps one after Python's lowering, except for the Kelvin sign, which becomes `k`, a letter no image extension has.
- Glob.Match: `fnmatch` bracket classes `[...]` are not modelled; no default pattern uses them.
- `excluded_files_count` is never reset between calls to `get_text`, so `GetText` adds to the old count. A file or directory dropped from the tree by a pattern is counted only in verbose mode (`codebase_to_text/codebase_to_text.py:229-231`, `251-253`). A directory skipped by the prefix test is not counted.

## Findings

| source | as written | input that shows it | evidently intended | confidence | as-written member | corrected member |
|---|---|---|---|---|---|---|
| codebase_to_text/codebase_to_text.py:238 | `level = root.replace(folder_path, '').count(os.sep)` counts the separators left after deleting the root string; the same line is at 245 and `codebase_to_text/cli.py:28` | `--input proj/`: os.walk yields `proj/` and then `proj/sub`; deleting `proj/` leaves no separator in either, so the child's line gets the same indentation as the root's | one level of indentation per directory below the root | not executed | Layout.TrailingSeparatorFlattensLevels | Layout.EntryIndentIsDepth |
