# genbemfs in Dafny

A model of the core of `genbemfs`. This tool reads the `class` attributes of
HTML files and creates one empty stylesheet stub for every BEM
(Block-Element-Modifier) class name it finds. It covers three parts:

- **The class-token classifier** (`Classifier`). This is the if/elif chain of
  `parse_html_files` over four anchored regular expressions: block `b`,
  element `b__e`, modifier `b_m` and grouped modifier `b_g_m`. Each name part
  is `[a-zA-Z0-9-]+`. `Classify` decides the patterns by splitting the token at
  underscores (`Names.Split`). The ghost predicates `BlockMatch`, `ElemMatch`,
  `ModMatch` and `GroupMatch` state each regular expression directly, with its
  capture groups. The `…Iff` lemmas prove the two agree in both directions.
- **Path and stub derivation** (`Layout`). `create_block_file`,
  `create_elem_file` and `create_mod_file` are `BlockStub`, `ElemStub` and
  `ModStub`. Paths are sequences of segments, and `JoinPath` drops empty
  components: `os.path.join` with an empty component only adds a trailing
  separator, which the next join absorbs. `Targets` lists the stubs one token asks
  for, in call order.
- **Create-if-absent over an abstract filesystem** (`StubFs`, `Generator`).
  `create_style_file` is `CreateStyleFile`. `os.makedirs` is `MakeDirs`, and it
  fails (`Blocked`) when a regular file sits on the directory's path. The stub
  is written only when nothing exists at its path yet. A token is processed by
  `ProcessToken`, a token sequence by `Scan`, and a directory listing by
  `Traverse`, which reads only the entries whose name ends with the HTML
  extension.

The output root, `CSS_FILE_EXT` and `HTML_FILE_EXT` are parameters (`root`,
`ext`, `Config`). An exception that ends the Python program is a `Crash`
outcome. It keeps the files written so far and stops every later step.

Three details of the code shape the model:

- Python's `$` without MULTILINE also matches just before one final newline.
  So `"card\n"` is classified, and so is `"card__x\n"`. The block branch passes
  the whole token, newline included, to `create_block_file`. The other branches
  pass only the capture groups. `StemRoundTrip` states this exactly. Tokens
  taken from a `class` attribute are split on whitespace, so a scanned token
  never ends in a newline, and for such tokens the round trip is exact.
- The order of the if/elif checks cannot change the result:
  `PatternsDisjoint` proves that no string matches two of the four patterns.
- A new stub holds `.{stem} {\n    \n}` (genbemfs.py:39).

The filesystem is `map<Path, Node>`, where `Node = Dir | File(content)`.
Directories are explicit so that two behaviours can be stated: `os.makedirs`
failing on a regular file, and `os.path.exists` being true for a directory.

## Model

| member | source | states |
|---|---|---|
| Names.Split | genbemfs.py:61-64 | cutting a string at its underscores gives pieces without underscores that glue back to the string |
| Names.SplitJoin | genbemfs.py:61-64 | the pieces of underscore-joined name parts are exactly those parts, so the capture groups of the patterns are unique |
| Classifier.BlockIff | genbemfs.py:62-68 | a token is a block exactly when `^([a-zA-Z0-9-]+)$` matches it, and the block is the whole token |
| Classifier.ElemIff | genbemfs.py:61-74 | the result is `Elem(b, e)` exactly when `^(N)__(N)$` matches with groups `b` and `e` |
| Classifier.ModIff | genbemfs.py:63-80 | the result is `Mod(b, m)` exactly when `^(N)_(N)$` matches with groups `b` and `m` |
| Classifier.GroupIff | genbemfs.py:64-87 | the result is `GroupMod(b, g, m)` exactly when `^(N)_(N)_(N)$` matches with groups `b`, `g` and `m` |
| Classifier.NoMatchIff | genbemfs.py:66-87 | a token is skipped exactly when none of the four patterns matches it |
| Classifier.PatternsDisjoint | genbemfs.py:61-87 | no token matches two of the patterns, so at most one branch can fire whatever the order of the checks |
| Classifier.StemRoundTrip | genbemfs.py:66-87 | the class name rebuilt from the extracted parts is the token itself (for non-blocks, up to the one trailing newline `$` tolerates) |
| Classifier.ForeignCharNoMatch | genbemfs.py:61-64 | a character outside `[A-Za-z0-9-_]` anywhere in the token (other than one final newline) makes it unclassifiable |
| Classifier.EdgeUnderscoreNoMatch | genbemfs.py:61-64 | a token starting or ending with an underscore is skipped |
| Classifier.TripleUnderscoreNoMatch | genbemfs.py:61-64 | `a___b` fits none of the shapes |
| Classifier.ElemThenModNoMatch | genbemfs.py:61-64 | `a__b_c` fits none of the shapes |
| Classifier.CardBlock | genbemfs.py:62 | `card` is the block `card` |
| Classifier.CardTitle | genbemfs.py:61 | `card__title` is the element `title` of block `card` |
| Classifier.CardThemeDark | genbemfs.py:64 | `card_theme_dark` is modifier `dark` in group `theme` of block `card` |
| Layout.NonEmpty | genbemfs.py:52 | the segments are non-empty, there are no more of them than components, and a non-empty string is a segment exactly when it is a component; a list without empty components is kept as it is |
| Layout.NonEmptySingle | genbemfs.py:52 | one component adds one segment when it is non-empty and none when it is empty |
| Layout.NonEmptyAppend | genbemfs.py:52 | the segments of two runs of components are those of the first run followed by those of the second, so components keep their order and none is repeated |
| Layout.JoinPathPair | genbemfs.py:50-52 | joining the block directory with the group part and the modifier part adds one segment for each of them that is non-empty, in order |
| Layout.BlockStub | genbemfs.py:41-43 | a block's stub lives in `root/b` and is named `b` |
| Layout.ElemStub | genbemfs.py:45-47 | an element's stub lives in `root/b/__e` and is named `b__e` |
| Layout.ModStub | genbemfs.py:49-53 | without a group the stub lives in `root/b/_m` named `b_m`; with a group it lives in the single directory `root/b/_g` named `b_g_m` |
| Layout.LastTargetStem | genbemfs.py:41-53 | the last stub a classified token asks for is named after the class the parts rebuild, which is the token itself when it does not end in a newline |
| Layout.BlockLayout | genbemfs.py:66-68 | a block token asks for exactly the file `root/b/b.ext` |
| Layout.ElemLayout | genbemfs.py:69-74 | an element token asks for the block stub, then `root/b/__e/b__e.ext` |
| Layout.ModLayout | genbemfs.py:75-80 | a modifier token asks for the block stub, then `root/b/_m/b_m.ext` |
| Layout.GroupModLayout | genbemfs.py:81-87 | a grouped modifier token asks for the block stub, then `root/b/_g/b_g_m.ext`, with no `_m` directory |
| Layout.TargetsWellShaped | genbemfs.py:41-53 | every stub sits one or two levels below the root, a second level always starts with `_`, and a stem never does |
| StubFs.MakeDirs | genbemfs.py:34 | makedirs keeps every existing entry and leaves every ancestor of the directory, and the directory itself, existing as a directory |
| StubFs.CreateStyleFile | genbemfs.py:33-39 | never overwrites or removes an entry; fails exactly when a regular file is on the directory's path, then changing nothing; otherwise the stub exists afterwards, a stub written new holds `.stem {\n    \n}`, and nothing else is added |
| StubFs.CreateSettledNoop | genbemfs.py:33-39 | once the stub's directories and file exist, creating it again changes nothing |
| StubFs.CreateIdempotent | genbemfs.py:33-39 | creating a stub twice gives the outcome of creating it once |
| StubFs.FileNeverOnDirPath | genbemfs.py:41-53 | a generated stub file never lies on the directory path of another generated stub |
| StubFs.SameFileSameStem | genbemfs.py:41-53 | two generated stubs with the same file path have the same stem, so a stub that is already in place was written with the same rule |
| Generator.CreateAll | genbemfs.py:73-87 | creating stubs in turn only adds entries, and on success every stub is in place |
| Generator.CreateAllIdempotent | genbemfs.py:73-87 | creating a sequence of stubs twice gives the outcome of doing it once, including where and why it failed |
| Generator.CreateAllOnlyCreated | genbemfs.py:33-53 | every added entry is a directory on a stub's path or a stub file holding exactly its rule |
| Generator.ProcessTokenCreatesTargets | genbemfs.py:66-87 | processing a token creates exactly the stubs of its shape, block first |
| Generator.NoMatchUnchanged | genbemfs.py:66-87 | an unclassifiable token leaves the filesystem unchanged |
| Generator.BlockStubAlongside | genbemfs.py:69-87 | after an element or modifier token, the block stub `root/b/b.ext` exists, holding `.b {…}` if it was new |
| Generator.ProcessTokenIdempotent | genbemfs.py:66-87 | processing a token twice gives the outcome of processing it once |
| Generator.ScanCreatesAllTargets | genbemfs.py:57-87 | scanning tokens is creating the stubs of all tokens in document order |
| Generator.ScanGrowsByStubs | genbemfs.py:57-87 | a scan keeps every existing entry, adds only stub directories and stub files, and on success leaves every target of every token in place |
| Generator.ScanIdempotent | genbemfs.py:57-87 | scanning the same tokens twice gives the outcome of scanning them once |
| Generator.FreshScanSucceeds | genbemfs.py:33-53 | in the abstract filesystem, a scan over an output tree with no regular files never fails |
| Generator.ScanContents | genbemfs.py:37-39 | after a successful scan, every target stub file that did not exist before holds exactly its empty rule |
| Generator.BlockElemGroupScenario | genbemfs.py:64-87 | `b`, `b__e`, `b_g_m` into an empty tree give `root/b/b.ext`, `root/b/__e/b__e.ext`, `root/b/_g/b_g_m.ext`, each with its own rule (the card example is `card`, `title`, `theme`, `dark`) |
| Generator.HtmlEntries | genbemfs.py:90-91 | every kept entry ends with the HTML extension and is in the listing, and every listed entry that ends with it is kept |
| Generator.HtmlEntriesSingle | genbemfs.py:90-91 | one entry is kept exactly when its name ends with the HTML extension |
| Generator.HtmlEntriesAppend | genbemfs.py:90-91 | the entries kept from two parts of a listing are those of the first part followed by those of the second, so the kept entries stay in listing order and none is repeated |
| Generator.TraverseOnlyHtml | genbemfs.py:89-94 | entries without the HTML extension are never read, readable or not, and do not change the outcome |
| Generator.TraverseIsScan | genbemfs.py:89-94 | when every HTML entry is readable, the traversal is one scan over their tokens in listing order |
| Generator.TraverseGrows | genbemfs.py:89-94 | a traversal never overwrites or removes an entry |
| Generator.TraverseIdempotent | genbemfs.py:89-94 | running the traversal twice over the same listing gives the outcome of running it once |

## Left out

- HTML parsing (`html_to_bs`, BeautifulSoup): each directory entry carries the class tokens of its elements in document order, or `Unreadable`.
- Reading files (`read_html_file`): it is the `Readable` / `Unreadable` choice of an entry. Any read failure, caught `FileNotFoundError` or not, ends the run as a `Crash` with `CannotRead`. Exit codes and messages are not modelled.
- `os.listdir`: the listing is a parameter, in any order. A missing HTML directory is not modelled.
- `main`, argv handling, the usage message, `create_sub_dir` and `DEFAULT_BLOCKS_DIR`: the output root is a parameter.
- Logging (`logger.info`, `logger.warning`, logger.py) and packaging (setup.py): no behaviour to model.
- The `config` module is not part of this model: `CSS_FILE_EXT` and `HTML_FILE_EXT` are parameters.
- Write failures of `open(…, 'w')` (permissions, a full disk) are not modelled: a write to an absent path always succeeds.
- StubFs.CreateStyleFile: the only `os.makedirs` failure modelled is a regular file on the directory's path. Permission errors, a read-only filesystem, and a directory or file name longer than the filesystem's limit are not, because the abstract filesystem has no permissions and no name length. A class token of 256 or more name characters reaches the length limit on a filesystem with 255-byte names: there the program stops with `OSError`, while the model creates the stub.
- Generator.FreshScanSucceeds: holds in the abstract filesystem only; the operating-system failures of the previous line can still stop a real run.
- Path semantics beyond segments: absolute components resetting `os.path.join`, `.` and `..`, symbolic links and case-insensitive filesystems. No generated component contains a separator.
- The filesystem map need not be a well-formed tree: a path may be present without its parent. The properties here do not depend on it.
- The card example is proved for an arbitrary block, element, group and modifier (`Generator.BlockElemGroupScenario`), not for the literal strings. A statement over the literal strings makes the verifier unfold the whole scan on constants.
