# file-combiner, modelled in Dafny

`file-combiner` is a command-line tool. It writes one text file that holds
two things:

- a tree diagram of an input directory;
- the contents of every regular file below that directory, each under a
  `=== relative/path ===` header.

An optional `--ignore a,b,c` argument names substrings. Any path whose text
contains one of them is left out of both the diagram and the contents.

This project models the whole of `src/main.rs`:

- **Ignore rule** (`PathFilter`, `Strings`): `should_ignore` is a substring
  test over the path text.
- **Argument split** (`IgnoreArg`): `--ignore` is split at every comma, and
  the pieces are kept even when empty.
- **Tree pass** (`TreeRender`): `print_tree` is a recursive walk over an
  abstract directory tree (`FileTree.Node`). A directory that cannot be
  listed is a node of its own kind.
- **Content pass** (`ContentDump`): the loop at the end of `main` works over
  the sequence of entries that the recursive walk yields.
- **Whole run** (`Combiner`): `main` puts the two passes together, after the
  check that the input exists.

Output goes to a `Writer` object (`Output`). Its `lines` field collects the
text of each `writeln!` in order. `Output.Flatten` gives the text of the
file as code points, adding the newline that `writeln!` appends.

Each imperative part of the source is a method; the ones that write take
the writer:

- `should_ignore`;
- the listing filter;
- the `print_tree` recursion and its loop over the entries;
- the content loop;
- `main`.

Each method is proved against a ghost specification function:

- `ShouldIgnore` against `Ignored`;
- `ListEntries` against `Survivors`;
- `PrintTree` against `Render`;
- `PrintEntries` against `RenderSiblings`;
- `DumpContents` against `Dump`;
- `Combine` against `Combined`.

The lemmas then state what those functions mean. The central result is that
the two passes agree.

- In the tree, pruning happens at an ignored directory.
- In the content pass, each entry is filtered on its own.
- These give the same set of paths, because every path below an ignored
  path is ignored too. Its text extends the ignored text, so the same
  substring still occurs in it.
- `TreeRender.ShownIsUnignored` proves this for the tree.
- `Combiner.TreeAndDumpAgree` proves it for the two passes together.

`Scenario` states the model's exact output for a project with two files,
once without `--ignore` and once with `--ignore sub`. The tree lists `a.txt`
before `sub` because it sorts entries by path. The contents follow walk
order instead.

Substring search and ordering are defined over code points. For valid
UTF-8 text, the code-point order is the same as the byte order that
`Path`'s `Ord` uses.

## Model

| member | source | states |
|---|---|---|
| Strings.Contains | src/main.rs:28 | `path_str.contains(pattern)` is true exactly when the pattern occurs at some offset of the text; this includes the empty pattern, which occurs everywhere |
| Strings.AbsentFirstChar | src/main.rs:28 | a text lacking the pattern's first character does not contain the pattern |
| PathFilter.ShouldIgnore | src/main.rs:24-34 | the loop answers true exactly when an ignore list is given and some pattern in it occurs in the path text; with no list it answers false |
| PathFilter.IgnoredIsOrderIndependent | src/main.rs:27-31 | the early `return true` makes the answer independent of the order (and repetition) of the patterns |
| PathFilter.IgnoredExtends | src/main.rs:26-28 | a path that is ignored stays ignored however many components are appended below it |
| PathFilter.EmptyPatternIgnoresAll | src/main.rs:28 | an empty pattern in the list ignores every path |
| IgnoreArg.Split | src/main.rs:45-47 | `split(',')` yields at least one piece and no piece contains a comma |
| IgnoreArg.JoinSplit | src/main.rs:45-47 | joining the pieces with commas gives back the argument: nothing is lost or reordered |
| IgnoreArg.SplitJoin | src/main.rs:45-47 | conversely, splitting comma-joined comma-free pieces gives back exactly those pieces |
| IgnoreArg.SplitNoComma | src/main.rs:45-47 | an argument without commas is a single pattern |
| IgnoreArg.SplitAfterPiece | src/main.rs:45-47 | splitting starts a new piece after each comma |
| IgnoreArg.EmptyPieces | src/main.rs:45-47 | doubled, leading and trailing commas and the empty argument give empty pieces |
| IgnoreArg.ParseIgnore | src/main.rs:45-47 | an ignore list exists exactly when `--ignore` was given, and it is a non-empty list whose comma-join is the argument |
| IgnoreArg.EmptyPieceIgnoresEverything | src/main.rs:45-47 | an argument with an empty piece (such as `a,,b` or `a,`) ignores every path |
| Paths.TextOfChild | src/main.rs:26 | the text of a child path is the parent's text, a `/`, and the name |
| Paths.TextExtends | src/main.rs:26 | the text of a path is a prefix of the text of any path below it |
| Paths.DisplayOfChild | src/main.rs:95-98 | a node below the root is displayed by its own entry name |
| Paths.RelativeSpec | src/main.rs:68-72 | below the input directory the header path is the remainder after the input prefix; elsewhere it is the whole path |
| Paths.SiblingOrder | src/main.rs:114 | ordering sibling paths by `Path` order is ordering them by entry name |
| FileTree.HasPathExtends | src/main.rs:109-119 | every path in a subtree extends the subtree's own path |
| FileTree.FileAtHasPath | src/main.rs:67 | a regular file of a subtree is one of its paths |
| FileTree.UnlistableAtHasPath | src/main.rs:107-111 | every directory of a subtree that fails to list is one of the subtree's paths |
| FileTree.SubtreeIgnored | src/main.rs:91-93 | everything below an ignored path is ignored, so `print_tree` loses nothing by not descending |
| FileTree.SurvivorsMembers | src/main.rs:109-112 | the listing filter keeps exactly the entries whose own paths are not ignored |
| FileTree.SurvivorsAllIgnored | src/main.rs:109-112 | when every entry is ignored the filtered listing is empty |
| FileTree.InsertByName | src/main.rs:114 | inserting an entry adds exactly that entry to the list's multiset |
| FileTree.InsertKeepsSorted | src/main.rs:114 | inserting into a name-sorted list keeps it sorted |
| FileTree.SortByName | src/main.rs:114 | sorting is a permutation of the listing |
| FileTree.SortByNameSorted | src/main.rs:114 | the sorted listing is in non-decreasing name order |
| FileTree.SortedByPath | src/main.rs:114 | the sorted listing is in `sort_by_key(path)` order |
| Strings.StrLeTotal | src/main.rs:114 | the name order is total |
| Strings.StrLeTrans | src/main.rs:114 | the name order is transitive |
| Strings.StrLeAntisym | src/main.rs:114 | the name order is antisymmetric |
| TreeRender.ListEntries | src/main.rs:109-112 | the listing loop keeps, in listing order, exactly the entries the filter keeps |
| TreeRender.PrintTree | src/main.rs:84-128 | `print_tree` appends exactly the lines of `Render` and fails exactly when `Render` records a failure |
| TreeRender.PrintEntries | src/main.rs:116-125 | the loop over the sorted entries appends each entry's subtree in turn, marks only the final entry as last, and stops at the first failure |
| TreeRender.KidsMembers | src/main.rs:109-114 | the entries visited under a directory are exactly its non-ignored entries |
| TreeRender.RenderVisible | src/main.rs:95-126 | a node that is not ignored writes its own line, then (for a directory) its entries' lines; a directory that cannot be listed fails after its line |
| TreeRender.SiblingsStopAtFailure | src/main.rs:118-124 | after a failing entry the `?` stops the loop: later entries add nothing |
| TreeRender.RenderIgnoredIsSilent | src/main.rs:91-93 | an ignored node (and so its whole subtree) writes nothing and succeeds |
| TreeRender.RenderFirstLine | src/main.rs:95-106 | a visible node's first line is the prefix, `└── ` when last or `├── ` otherwise, and the displayed name |
| TreeRender.RenderSingleLine | src/main.rs:100-126 | a file, or a directory whose entries are all ignored, writes exactly its own line |
| TreeRender.EntriesVisitedInPathOrder | src/main.rs:108-114 | a directory's entries are visited each once, exactly the non-ignored ones, in ascending path order |
| TreeRender.RenderPrefixes | src/main.rs:100-117 | every line of a subtree starts with its prefix, and every line after the first starts with the prefix extended by `    ` or `│   ` |
| TreeRender.SiblingsPrefixes | src/main.rs:116-125 | every line written for a directory's entries starts with the child prefix |
| TreeRender.RenderLinesMatchShown | src/main.rs:84-128 | on success there is one line per shown node, in order, each ending in that node's displayed name |
| TreeRender.SiblingsLinesMatchShown | src/main.rs:116-125 | the same correspondence holds for the loop over a directory's entries |
| TreeRender.RenderOkIffListed | src/main.rs:84-128 | `print_tree` returns `Ok` exactly when every directory of the subtree whose `read_dir` fails is ignored |
| TreeRender.HiddenFailuresRenderOk | src/main.rs:84-128 | when every directory that cannot be listed is ignored, `print_tree` succeeds, since ignored directories are never listed |
| TreeRender.SiblingsHiddenFailuresOk | src/main.rs:116-125 | the same holds for the loop over a directory's entries |
| TreeRender.VisibleFailureFails | src/main.rs:109-124 | a directory that cannot be listed and is not ignored makes `print_tree` fail, its error carried up by the `?` of every enclosing loop |
| TreeRender.SiblingFailureStops | src/main.rs:116-125 | one failing entry makes the loop over the entries fail |
| TreeRender.ShownInSiblings | src/main.rs:116-125 | what any entry's subtree shows is shown by its directory |
| TreeRender.SiblingOfShown | src/main.rs:116-125 | everything the loop shows comes from some entry's subtree |
| TreeRender.ShownIsInTree | src/main.rs:91-111 | the tree shows only paths of the tree that are not ignored |
| TreeRender.UnignoredIsShown | src/main.rs:91-111 | every path of the tree that is not ignored is shown |
| TreeRender.ShownIsUnignored | src/main.rs:91-111 | the tree shows a path exactly when it is in the tree and not ignored |
| ContentDump.DumpContents | src/main.rs:60-78 | the loop appends exactly the lines of `Dump` and fails exactly when `Dump` records a failure |
| ContentDump.DumpStopsAtFailure | src/main.rs:75 | after an unreadable file the `?` ends the loop: later entries add nothing |
| ContentDump.KeptMembers | src/main.rs:64-67 | the entries written about are exactly the walked regular files that are not ignored |
| ContentDump.ReadableRun | src/main.rs:75 | the count of leading readable files never exceeds the number of files |
| ContentDump.ReadableRunSpec | src/main.rs:75 | that count stops exactly at the first unreadable file |
| ContentDump.BlocksUntilUnreadableStep | src/main.rs:74-76 | one more kept file adds its header and contents, or only its header when unreadable, unless the loop already stopped |
| ContentDump.DumpIsBlocks | src/main.rs:60-78 | the output is the kept files' blocks in walk order, up to and including the header of the first unreadable file, which ends the run with an error |
| ContentDump.DumpSucceedsIffReadable | src/main.rs:60-78 | the loop succeeds exactly when every kept file is readable, and then writes every kept file's block in walk order |
| ContentDump.BlocksLength | src/main.rs:74-76 | each readable file contributes exactly two lines |
| ContentDump.BlockText | src/main.rs:74-76 | a readable file appears in the output as `=== rel ===`, a blank line, its contents and a blank line |
| Output.FlattenAppend | src/main.rs:56-58 | the output bytes of consecutive writes are the concatenation of each write's bytes |
| Combiner.Combine | src/main.rs:36-82 | `main` (after argument parsing) produces exactly `Combined`: nothing when the input is missing; otherwise the heading, the tree, and, only if the tree succeeded, the second heading and the contents |
| Combiner.TreeAndDumpAgree | src/main.rs:57-67 | for a walk that visits exactly the tree's nodes, an entry is kept for the content pass exactly when it is a file the diagram shows, and every file the diagram shows is kept |
| Combiner.CombinedSucceedsIff | src/main.rs:36-82 | a run succeeds exactly when the input exists, every directory that cannot be listed is ignored and every kept file can be read |
| Scenario.IgnoringSubHidesItEverywhere | src/main.rs:36-82 | with `--ignore sub`, the sample project's output is the root and `a.txt` in the tree and only `a.txt` in the contents |
| Scenario.SampleRun | src/main.rs:36-82 | without `--ignore`, the sample project's output is the sorted tree with its branch markers and indentation, then both files in walk order |

## Left out

- Argument parsing by `clap` (src/main.rs:7-22, 37) is not modelled. The model starts from the parsed `--input` path and the optional `--ignore` string.
- Output directory creation, `File::create`, and write errors (src/main.rs:41-43, 54) are not modelled. The writer never fails, so the only failures modelled are listing a directory and reading a file.
- The error message and `exit(1)` for a missing input, and the success message on stdout (lines 50-51, 80), are not modelled. They appear only as the `MissingInput` and `Success` outcomes.
- The filesystem is given, not queried. `print_tree` sees a `Node` tree whose children are in `read_dir` order. The content loop sees the entry sequence that the walk yields, with each file's contents or `None` for a failed read. The walk's order, and following symbolic links (including link cycles), are therefore not modelled. `Combiner.TreeAndDumpAgree` requires only that the walk visits exactly the tree's nodes and classifies files correctly. It speaks of the entries kept for the content pass; the loop may stop before writing all of them, at the first unreadable file.
- Entries whose `read_dir` or walk item is an error are dropped by `filter_map(|e| e.ok())` (lines 63, 110). The model leaves them out of the given inputs.
- Lossy UTF-8 conversion is not modelled. Names are strings of code points, and `to_string_lossy` is the identity on them.
- The input path is taken in normal form, as its component sequence, and its text is those components joined by `/`. The program matches patterns against the input exactly as typed, so a root written with a trailing or doubled `/` or an inner `.` (`proj/`, `a//b`, `proj/.`) is matched here by its normal text (`proj`, `a/b`, `proj`). With `--input proj/ --ignore proj/` the program ignores the root and writes an empty diagram, while the model writes the root's line.
- Paths are relative or plain component sequences. Root and prefix components of absolute Windows or Unix paths are not modelled.
- `TreeRender.PrintEntries` is a separate method holding the loop of lines 116-125. It has the same behaviour as the loop written inline in `print_tree`.
