/** The generator: classify each class token and create the stubs it asks
    for (`parse_html_files`), over the tokens of every HTML file of a
    directory listing (`traverse_html_files_dir`).

    An exception in the source ends the whole program; here it is a `Crash`
    outcome that stops every later step and keeps the files written so far.
 */
module Generator {
  import opened Names
  import opened Classifier
  import opened Layout
  import opened StubFs

  /** The configured extensions: `CSS_FILE_EXT` for stubs and
      `HTML_FILE_EXT` for the files to scan. */
  datatype Config = Config(cssExt: string, htmlExt: string)

  /** What reading and parsing one directory entry gives: the class tokens
      of all its elements in document order, or a read failure. */
  datatype Document = Readable(classTokens: seq<string>) | Unreadable

  datatype Entry = Entry(name: string, doc: Document)

  /** Create the stubs in order, stopping at the first failure. */
  function CreateAll(fs: FileSystem, stubs: seq<Stub>, ext: string): (r: Outcome)
    ensures Extends(fs, r.fs)
    ensures r.Ok? ==> forall i :: 0 <= i < |stubs| ==> Settled(r.fs, stubs[i], ext)
    decreases |stubs|
  {
    if stubs == [] then Ok(fs)
    else
      var r0 := CreateStyleFile(fs, stubs[0], ext);
      if r0.Crash? then r0
      else
        var r := CreateAll(r0.fs, stubs[1..], ext);
        if r.Ok? then SettledGrows(r0.fs, r.fs, stubs[0], ext); r else r
  }

  /** One class token through the if/elif chain of `parse_html_files`:
      the block stub first, then the element or modifier stub. */
  function ProcessToken(fs: FileSystem, root: Path, ext: string, t: string): Outcome
  {
    match Classify(t)
    case Block(name) => CreateStyleFile(fs, BlockStub(root, name), ext)
    case Elem(b, e) =>
      var r := CreateStyleFile(fs, BlockStub(root, b), ext);
      if r.Crash? then r else CreateStyleFile(r.fs, ElemStub(root, b, e), ext)
    case Mod(b, m) =>
      var r := CreateStyleFile(fs, BlockStub(root, b), ext);
      if r.Crash? then r else CreateStyleFile(r.fs, ModStub(root, b, m, ""), ext)
    case GroupMod(b, g, m) =>
      var r := CreateStyleFile(fs, BlockStub(root, b), ext);
      if r.Crash? then r else CreateStyleFile(r.fs, ModStub(root, b, m, g), ext)
    case NoMatch => Ok(fs)
  }

  /** The loop of `parse_html_files` over the class tokens of one document. */
  function Scan(fs: FileSystem, root: Path, ext: string, tokens: seq<string>): Outcome
    decreases |tokens|
  {
    if tokens == [] then Ok(fs)
    else
      var r := ProcessToken(fs, root, ext, tokens[0]);
      if r.Crash? then r else Scan(r.fs, root, ext, tokens[1..])
  }

  /** `str.endswith`. */
  predicate EndsWith(s: string, suffix: string) {
    |suffix| <= |s| && s[|s| - |suffix|..] == suffix
  }

  /** `traverse_html_files_dir` over a listing: every entry whose name ends
      with the HTML extension is read and scanned; a file that cannot be
      read stops the run. */
  function Traverse(fs: FileSystem, root: Path, cfg: Config, entries: seq<Entry>): Outcome
    decreases |entries|
  {
    if entries == [] then Ok(fs)
    else
      var e := entries[0];
      if !EndsWith(e.name, cfg.htmlExt) then Traverse(fs, root, cfg, entries[1..])
      else match e.doc
        case Unreadable => Crash(fs, CannotRead(e.name))
        case Readable(tokens) =>
          var r := Scan(fs, root, cfg.cssExt, tokens);
          if r.Crash? then r else Traverse(r.fs, root, cfg, entries[1..])
  }

  // ---------------------------------------------------------------------------
  // Reference definitions

  /** The stubs a token sequence asks for, token by token. */
  function AllTargets(root: Path, tokens: seq<string>): seq<Stub>
    decreases |tokens|
  {
    if tokens == [] then [] else Targets(root, Classify(tokens[0])) + AllTargets(root, tokens[1..])
  }

  /** The entries the traversal reads: those named with the HTML extension. */
  function HtmlEntries(entries: seq<Entry>, htmlExt: string): (r: seq<Entry>)
    ensures forall i :: 0 <= i < |r| ==> EndsWith(r[i].name, htmlExt)
    ensures forall i :: 0 <= i < |r| ==> r[i] in entries
    ensures forall e :: e in entries && EndsWith(e.name, htmlExt) ==> e in r
    decreases |entries|
  {
    if entries == [] then []
    else if EndsWith(entries[0].name, htmlExt) then [entries[0]] + HtmlEntries(entries[1..], htmlExt)
    else HtmlEntries(entries[1..], htmlExt)
  }

  /** A single entry is kept exactly when its name has the HTML extension. */
  lemma HtmlEntriesSingle(e: Entry, htmlExt: string)
    ensures HtmlEntries([e], htmlExt) == if EndsWith(e.name, htmlExt) then [e] else []
  {
    var one: seq<Entry> := [e];
    assert one[1..] == [];
  }

  /** Entries are filtered one by one, so the kept ones stay in listing
      order and none is repeated. */
  lemma {:induction false} HtmlEntriesAppend(a: seq<Entry>, b: seq<Entry>, htmlExt: string)
    ensures HtmlEntries(a + b, htmlExt) == HtmlEntries(a, htmlExt) + HtmlEntries(b, htmlExt)
    decreases |a|
  {
    if a == [] {
      assert a + b == b;
    } else {
      assert (a + b)[0] == a[0];
      assert (a + b)[1..] == a[1..] + b;
      HtmlEntriesAppend(a[1..], b, htmlExt);
    }
  }

  predicate AllReadable(entries: seq<Entry>) {
    forall i :: 0 <= i < |entries| ==> entries[i].doc.Readable?
  }

  /** The class tokens of all documents, in listing order. */
  function AllTokens(entries: seq<Entry>): seq<string>
    requires AllReadable(entries)
    decreases |entries|
  {
    if entries == [] then [] else entries[0].doc.classTokens + AllTokens(entries[1..])
  }

  /** Continue with more stubs after an outcome, unless it crashed. */
  function AndThen(r: Outcome, stubs: seq<Stub>, ext: string): Outcome {
    if r.Crash? then r else CreateAll(r.fs, stubs, ext)
  }

  // ---------------------------------------------------------------------------
  // Creating a sequence of stubs

  lemma {:induction false} CreateAllAppend(fs: FileSystem, a: seq<Stub>, b: seq<Stub>, ext: string)
    ensures CreateAll(fs, a + b, ext) == AndThen(CreateAll(fs, a, ext), b, ext)
    decreases |a|
  {
    if a == [] {
      assert a + b == b;
    } else {
      assert (a + b)[0] == a[0];
      assert (a + b)[1..] == a[1..] + b;
      var r0 := CreateStyleFile(fs, a[0], ext);
      if r0.Ok? {
        CreateAllAppend(r0.fs, a[1..], b, ext);
      }
    }
  }

  /** When every stub is settled, creating them all changes nothing. */
  lemma {:induction false} CreateAllSettledNoop(fs: FileSystem, stubs: seq<Stub>, ext: string)
    requires forall i :: 0 <= i < |stubs| ==> Settled(fs, stubs[i], ext)
    ensures CreateAll(fs, stubs, ext) == Ok(fs)
    decreases |stubs|
  {
    if stubs != [] {
      CreateSettledNoop(fs, stubs[0], ext);
      CreateAllSettledNoop(fs, stubs[1..], ext);
    }
  }

  /** Creating a sequence of stubs twice gives the outcome of doing it once,
      including the point and cause of a failure. */
  lemma {:induction false} CreateAllIdempotent(fs: FileSystem, stubs: seq<Stub>, ext: string)
    ensures CreateAll(CreateAll(fs, stubs, ext).fs, stubs, ext) == CreateAll(fs, stubs, ext)
    decreases |stubs|
  {
    if stubs != [] {
      var r := CreateAll(fs, stubs, ext);
      var r0 := CreateStyleFile(fs, stubs[0], ext);
      if r0.Crash? {
        CreateIdempotent(fs, stubs[0], ext);
      } else {
        CreateAllIdempotent(r0.fs, stubs[1..], ext);
        SettledGrows(r0.fs, r.fs, stubs[0], ext);
        CreateSettledNoop(r.fs, stubs[0], ext);
      }
    }
  }

  /** Every entry that creating `stubs` adds is a directory on a stub's path
      or a stub file holding exactly its empty rule. */
  lemma {:induction false} CreateAllOnlyCreated(fs: FileSystem, stubs: seq<Stub>, ext: string)
    ensures OnlyCreated(fs, CreateAll(fs, stubs, ext).fs, stubs, ext)
    decreases |stubs|
  {
    if stubs != [] {
      var r := CreateAll(fs, stubs, ext);
      var r0 := CreateStyleFile(fs, stubs[0], ext);
      if r0.Ok? {
        CreateAllOnlyCreated(r0.fs, stubs[1..], ext);
        forall p | p in r.fs && p !in fs ensures Created(p, r.fs[p], stubs, ext) {
          if p in r0.fs {
            assert r.fs[p] == r0.fs[p];
            assert Created(p, r.fs[p], [stubs[0]], ext);
            assert [stubs[0]] == stubs[0..1];
            CreatedInSlice(p, r.fs[p], stubs, 0, 1, ext);
          } else {
            assert r.fs == CreateAll(r0.fs, stubs[1..], ext).fs;
            assert Created(p, r.fs[p], stubs[1..], ext);
            assert stubs[1..] == stubs[1..|stubs|];
            CreatedInSlice(p, r.fs[p], stubs, 1, |stubs|, ext);
          }
        }
      }
    }
  }

  // ---------------------------------------------------------------------------
  // Processing tokens

  lemma CreateAllOne(fs: FileSystem, a: Stub, ext: string)
    ensures CreateAll(fs, [a], ext) == CreateStyleFile(fs, a, ext)
  {
    assert [a][1..] == [];
  }

  lemma CreateAllTwo(fs: FileSystem, a: Stub, b: Stub, ext: string)
    ensures CreateAll(fs, [a, b], ext) ==
      (var r := CreateStyleFile(fs, a, ext); if r.Crash? then r else CreateStyleFile(r.fs, b, ext))
  {
    assert [a, b][1..] == [b];
    var r := CreateStyleFile(fs, a, ext);
    if r.Ok? {
      CreateAllOne(r.fs, b, ext);
    }
  }

  /** `parse_html_files` on one token creates exactly the stubs `Targets`
      lists for its shape, in that order. */
  lemma {:induction false} ProcessTokenCreatesTargets(fs: FileSystem, root: Path, ext: string, t: string)
    ensures ProcessToken(fs, root, ext, t) == CreateAll(fs, Targets(root, Classify(t)), ext)
  {
    match Classify(t) {
      case Block(n) => CreateAllOne(fs, BlockStub(root, n), ext);
      case Elem(b, e) => CreateAllTwo(fs, BlockStub(root, b), ElemStub(root, b, e), ext);
      case Mod(b, m) => CreateAllTwo(fs, BlockStub(root, b), ModStub(root, b, m, ""), ext);
      case GroupMod(b, g, m) => CreateAllTwo(fs, BlockStub(root, b), ModStub(root, b, m, g), ext);
      case NoMatch =>
    }
  }

  /** A token matching none of the patterns leaves the filesystem as it was. */
  lemma NoMatchUnchanged(fs: FileSystem, root: Path, ext: string, t: string)
    requires Classify(t) == NoMatch
    ensures ProcessToken(fs, root, ext, t) == Ok(fs)
  {
  }

  /** The block stub `root/b/b.ext` is in place after creating it and then
      any second stub, and holds `.b {…}` when it was absent before. */
  lemma {:induction false} BlockThen(fs: FileSystem, root: Path, ext: string, b: string, next: Stub)
    requires IsName(b)
    ensures var r1 := CreateStyleFile(fs, BlockStub(root, b), ext);
      var r := if r1.Crash? then r1 else CreateStyleFile(r1.fs, next, ext);
      r.Ok? ==> (root + [b, b + ext] in r.fs
                 && (root + [b, b + ext] !in fs ==> r.fs[root + [b, b + ext]] == File(StubContent(b))))
  {
    var st := BlockStub(root, b);
    assert st == Stub(root + [b], b);
    assert FilePath(st, ext) == root + [b, b + ext];
  }

  /** An element or modifier token also leaves its block's stub in place:
      `root/b/b.ext` exists afterwards, holding `.b {…}` when it was absent
      before. */
  lemma {:induction false} BlockStubAlongside(fs: FileSystem, root: Path, ext: string, t: string, b: string)
    requires Classify(t).Elem? || Classify(t).Mod? || Classify(t).GroupMod?
    requires Classify(t).block == b
    ensures var r := ProcessToken(fs, root, ext, t);
      r.Ok? ==> (root + [b, b + ext] in r.fs
                 && (root + [b, b + ext] !in fs ==> r.fs[root + [b, b + ext]] == File(StubContent(b))))
  {
    match Classify(t) {
      case Elem(_, e) =>
        ElemIff(t, b, e);
        BlockThen(fs, root, ext, b, ElemStub(root, b, e));
      case Mod(_, m) =>
        ModIff(t, b, m);
        BlockThen(fs, root, ext, b, ModStub(root, b, m, ""));
      case GroupMod(_, g, m) =>
        GroupIff(t, b, g, m);
        BlockThen(fs, root, ext, b, ModStub(root, b, m, g));
    }
  }

  /** Processing a token twice gives the outcome of processing it once. */
  lemma ProcessTokenIdempotent(fs: FileSystem, root: Path, ext: string, t: string)
    ensures var r := ProcessToken(fs, root, ext, t);
      ProcessToken(r.fs, root, ext, t) == r
  {
    var r := ProcessToken(fs, root, ext, t);
    ProcessTokenCreatesTargets(fs, root, ext, t);
    ProcessTokenCreatesTargets(r.fs, root, ext, t);
    CreateAllIdempotent(fs, Targets(root, Classify(t)), ext);
  }

  // ---------------------------------------------------------------------------
  // Scanning a token sequence

  /** Scanning tokens creates the stubs of all tokens in order. */
  lemma {:induction false} ScanCreatesAllTargets(fs: FileSystem, root: Path, ext: string, tokens: seq<string>)
    ensures Scan(fs, root, ext, tokens) == CreateAll(fs, AllTargets(root, tokens), ext)
    decreases |tokens|
  {
    if tokens != [] {
      var head := Targets(root, Classify(tokens[0]));
      ProcessTokenCreatesTargets(fs, root, ext, tokens[0]);
      CreateAllAppend(fs, head, AllTargets(root, tokens[1..]), ext);
      var r := CreateAll(fs, head, ext);
      if r.Ok? {
        ScanCreatesAllTargets(r.fs, root, ext, tokens[1..]);
      }
    }
  }

  /** Every stub any token asks for is among the scan's targets. */
  lemma {:induction false} TargetsInAllTargets(root: Path, tokens: seq<string>, k: int, st: Stub)
    requires 0 <= k < |tokens| && st in Targets(root, Classify(tokens[k]))
    ensures st in AllTargets(root, tokens)
    decreases |tokens|
  {
    if k > 0 {
      TargetsInAllTargets(root, tokens[1..], k - 1, st);
    }
  }

  /** The scan only adds entries, each one a directory on a target's path or
      a target's stub file with its empty rule; after a scan without error
      every target of every token is in place. */
  lemma ScanGrowsByStubs(fs: FileSystem, root: Path, ext: string, tokens: seq<string>)
    ensures var r := Scan(fs, root, ext, tokens);
      Extends(fs, r.fs) && OnlyCreated(fs, r.fs, AllTargets(root, tokens), ext)
    ensures var r := Scan(fs, root, ext, tokens);
      r.Ok? ==> (forall k, st :: 0 <= k < |tokens| && st in Targets(root, Classify(tokens[k]))
                   ==> Settled(r.fs, st, ext))
  {
    ScanCreatesAllTargets(fs, root, ext, tokens);
    CreateAllOnlyCreated(fs, AllTargets(root, tokens), ext);
    var r := Scan(fs, root, ext, tokens);
    if r.Ok? {
      forall k, st | 0 <= k < |tokens| && st in Targets(root, Classify(tokens[k]))
        ensures Settled(r.fs, st, ext)
      {
        TargetsInAllTargets(root, tokens, k, st);
      }
    }
  }

  /** Scanning the same tokens twice gives the outcome of scanning them once. */
  lemma ScanIdempotent(fs: FileSystem, root: Path, ext: string, tokens: seq<string>)
    ensures var r := Scan(fs, root, ext, tokens);
      Scan(r.fs, root, ext, tokens) == r
  {
    var r := Scan(fs, root, ext, tokens);
    ScanCreatesAllTargets(fs, root, ext, tokens);
    ScanCreatesAllTargets(r.fs, root, ext, tokens);
    CreateAllIdempotent(fs, AllTargets(root, tokens), ext);
  }

  // ---------------------------------------------------------------------------
  // Traversing a directory listing

  /** Entries whose names lack the HTML extension are never read: dropping
      them, readable or not, does not change the outcome. */
  lemma {:induction false} TraverseOnlyHtml(fs: FileSystem, root: Path, cfg: Config, entries: seq<Entry>)
    ensures Traverse(fs, root, cfg, entries) == Traverse(fs, root, cfg, HtmlEntries(entries, cfg.htmlExt))
    decreases |entries|
  {
    if entries != [] {
      var e := entries[0];
      var h := HtmlEntries(entries, cfg.htmlExt);
      if !EndsWith(e.name, cfg.htmlExt) {
        TraverseOnlyHtml(fs, root, cfg, entries[1..]);
      } else {
        assert h[0] == e && h[1..] == HtmlEntries(entries[1..], cfg.htmlExt);
        match e.doc
        case Unreadable =>
        case Readable(tokens) =>
          var r := Scan(fs, root, cfg.cssExt, tokens);
          if r.Ok? {
            TraverseOnlyHtml(r.fs, root, cfg, entries[1..]);
          }
      }
    }
  }

  lemma {:induction false} ScanAppend(fs: FileSystem, root: Path, ext: string, a: seq<string>, b: seq<string>)
    ensures Scan(fs, root, ext, a + b) ==
      (var r := Scan(fs, root, ext, a); if r.Crash? then r else Scan(r.fs, root, ext, b))
    decreases |a|
  {
    if a == [] {
      assert a + b == b;
    } else {
      assert (a + b)[0] == a[0];
      assert (a + b)[1..] == a[1..] + b;
      var r0 := ProcessToken(fs, root, ext, a[0]);
      if r0.Ok? {
        ScanAppend(r0.fs, root, ext, a[1..], b);
      }
    }
  }

  /** When every HTML entry can be read, the traversal is one scan over the
      class tokens of the HTML files in listing order. */
  lemma {:induction false} TraverseIsScan(fs: FileSystem, root: Path, cfg: Config, entries: seq<Entry>)
    requires AllReadable(HtmlEntries(entries, cfg.htmlExt))
    ensures Traverse(fs, root, cfg, entries)
      == Scan(fs, root, cfg.cssExt, AllTokens(HtmlEntries(entries, cfg.htmlExt)))
    decreases |entries|
  {
    TraverseOnlyHtml(fs, root, cfg, entries);
    HtmlTraverseIsScan(fs, root, cfg, HtmlEntries(entries, cfg.htmlExt));
  }

  lemma {:induction false} HtmlTraverseIsScan(fs: FileSystem, root: Path, cfg: Config, entries: seq<Entry>)
    requires AllReadable(entries)
    requires forall i :: 0 <= i < |entries| ==> EndsWith(entries[i].name, cfg.htmlExt)
    ensures Traverse(fs, root, cfg, entries) == Scan(fs, root, cfg.cssExt, AllTokens(entries))
    decreases |entries|
  {
    if entries != [] {
      var tokens := entries[0].doc.classTokens;
      ScanAppend(fs, root, cfg.cssExt, tokens, AllTokens(entries[1..]));
      var r := Scan(fs, root, cfg.cssExt, tokens);
      if r.Ok? {
        HtmlTraverseIsScan(r.fs, root, cfg, entries[1..]);
      }
    }
  }

  /** Running the whole traversal twice over the same listing gives the
      outcome of running it once: every stub the first run made is left as
      it is, and a run that failed fails again at the same point. */
  lemma {:induction false} TraverseIdempotent(fs: FileSystem, root: Path, cfg: Config, entries: seq<Entry>)
    ensures var r := Traverse(fs, root, cfg, entries);
      Traverse(r.fs, root, cfg, entries) == r
    decreases |entries|
  {
    if entries != [] {
      var e := entries[0];
      var r := Traverse(fs, root, cfg, entries);
      if !EndsWith(e.name, cfg.htmlExt) {
        TraverseIdempotent(fs, root, cfg, entries[1..]);
      } else {
        match e.doc
        case Unreadable =>
        case Readable(tokens) =>
          var s := Scan(fs, root, cfg.cssExt, tokens);
          if s.Crash? {
            ScanIdempotent(fs, root, cfg.cssExt, tokens);
          } else {
            TraverseIdempotent(s.fs, root, cfg, entries[1..]);
            TraverseGrows(s.fs, root, cfg, entries[1..]);
            ScanCreatesAllTargets(s.fs, root, cfg.cssExt, tokens);
            ScanCreatesAllTargets(r.fs, root, cfg.cssExt, tokens);
            var all := AllTargets(root, tokens);
            ScanCreatesAllTargets(fs, root, cfg.cssExt, tokens);
            forall i | 0 <= i < |all| ensures Settled(r.fs, all[i], cfg.cssExt) {
              SettledGrows(s.fs, r.fs, all[i], cfg.cssExt);
            }
            CreateAllSettledNoop(r.fs, all, cfg.cssExt);
          }
      }
    }
  }

  /** The traversal only adds entries. */
  lemma {:induction false} TraverseGrows(fs: FileSystem, root: Path, cfg: Config, entries: seq<Entry>)
    ensures Extends(fs, Traverse(fs, root, cfg, entries).fs)
    decreases |entries|
  {
    if entries != [] {
      var e := entries[0];
      if !EndsWith(e.name, cfg.htmlExt) {
        TraverseGrows(fs, root, cfg, entries[1..]);
      } else {
        match e.doc
        case Unreadable =>
        case Readable(tokens) =>
          ScanCreatesAllTargets(fs, root, cfg.cssExt, tokens);
          var s := Scan(fs, root, cfg.cssExt, tokens);
          if s.Ok? {
            TraverseGrows(s.fs, root, cfg, entries[1..]);
          }
      }
    }
  }

  // ---------------------------------------------------------------------------
  // Runs that cannot fail, and what they write

  /** A regular file sits on the way to no stub of `stubs`. */
  predicate Unobstructed(fs: FileSystem, stubs: seq<Stub>) {
    forall i :: 0 <= i < |stubs| ==> !Blocked(fs, stubs[i].dir)
  }

  /** Creating well-shaped stubs never obstructs a later one, so when none
      is obstructed at the start, creating them all succeeds. */
  lemma {:induction false} CreateAllSucceeds(fs: FileSystem, root: Path, stubs: seq<Stub>, ext: string)
    requires forall i :: 0 <= i < |stubs| ==> WellShaped(root, stubs[i])
    requires Unobstructed(fs, stubs)
    ensures CreateAll(fs, stubs, ext).Ok?
    decreases |stubs|
  {
    if stubs != [] {
      var r0 := CreateStyleFile(fs, stubs[0], ext);
      var fs1 := r0.fs;
      forall i | 1 <= i < |stubs| ensures !Blocked(fs1, stubs[i].dir) {
        if Blocked(fs1, stubs[i].dir) {
          var j :| 1 <= j <= |stubs[i].dir| && stubs[i].dir[..j] in fs1 && fs1[stubs[i].dir[..j]].File?;
          var p := stubs[i].dir[..j];
          assert p !in fs;
          assert Created(p, fs1[p], [stubs[0]], ext);
          assert [stubs[0]][0] == stubs[0];
          assert p == FilePath(stubs[0], ext);
          FileNeverOnDirPath(root, stubs[0], stubs[i], ext);
          assert false;
        }
      }
      CreateAllSucceeds(fs1, root, stubs[1..], ext);
    }
  }

  /** After creating well-shaped stubs, every stub file that did not exist
      before holds exactly `.stem {\n    \n}`. */
  lemma {:induction false} CreateAllContents(fs: FileSystem, root: Path, stubs: seq<Stub>, ext: string, k: int)
    requires forall i :: 0 <= i < |stubs| ==> WellShaped(root, stubs[i])
    requires 0 <= k < |stubs|
    requires FilePath(stubs[k], ext) !in fs
    ensures var r := CreateAll(fs, stubs, ext);
      r.Ok? ==> r.fs[FilePath(stubs[k], ext)] == File(StubContent(stubs[k].stem))
  {
    var r := CreateAll(fs, stubs, ext);
    var p := FilePath(stubs[k], ext);
    if r.Ok? {
      CreateAllOnlyCreated(fs, stubs, ext);
      assert Created(p, r.fs[p], stubs, ext);
      var i :| 0 <= i < |stubs| && CreatedFor(p, r.fs[p], stubs[i], ext);
      FileNeverOnDirPath(root, stubs[k], stubs[i], ext);
      SameFileSameStem(root, stubs[k], stubs[i], ext);
    }
  }

  lemma {:induction false} AllTargetsWellShaped(root: Path, tokens: seq<string>)
    ensures forall st :: st in AllTargets(root, tokens) ==> WellShaped(root, st)
    decreases |tokens|
  {
    if tokens != [] {
      TargetsWellShaped(root, tokens[0]);
      AllTargetsWellShaped(root, tokens[1..]);
      var head := Targets(root, Classify(tokens[0]));
      forall st | st in AllTargets(root, tokens) ensures WellShaped(root, st) {
        if st in head {
          var i :| 0 <= i < |head| && head[i] == st;
        }
      }
    }
  }

  predicate NoRegularFiles(fs: FileSystem) {
    forall p :: p in fs ==> fs[p] == Dir
  }

  /** A scan over an output tree that holds no regular files never fails. */
  lemma FreshScanSucceeds(fs: FileSystem, root: Path, ext: string, tokens: seq<string>)
    requires NoRegularFiles(fs)
    ensures Scan(fs, root, ext, tokens).Ok?
  {
    var all := AllTargets(root, tokens);
    ScanCreatesAllTargets(fs, root, ext, tokens);
    AllTargetsWellShaped(root, tokens);
    CreateAllSucceeds(fs, root, all, ext);
  }

  /** After a scan without error, every stub file a token asked for that did
      not exist before holds exactly its empty rule. */
  lemma ScanContents(fs: FileSystem, root: Path, ext: string, tokens: seq<string>, k: int, st: Stub)
    requires 0 <= k < |tokens| && st in Targets(root, Classify(tokens[k]))
    requires FilePath(st, ext) !in fs
    ensures var r := Scan(fs, root, ext, tokens);
      r.Ok? ==> FilePath(st, ext) in r.fs && r.fs[FilePath(st, ext)] == File(StubContent(st.stem))
  {
    var all := AllTargets(root, tokens);
    ScanCreatesAllTargets(fs, root, ext, tokens);
    AllTargetsWellShaped(root, tokens);
    assert forall j :: 0 <= j < |all| ==> WellShaped(root, all[j]);
    TargetsInAllTargets(root, tokens, k, st);
    var i :| 0 <= i < |all| && all[i] == st;
    CreateAllContents(fs, root, all, ext, i);
    assert Scan(fs, root, ext, tokens) == CreateAll(fs, all, ext);
  }

  /** A block, one of its elements and one of its grouped modifiers,
      written into an empty output tree: the run succeeds and leaves `root/b/b.ext`, `root/b/__e/b__e.ext` and
      `root/b/_g/b_g_m.ext`, each holding its own empty rule. */
  lemma {:induction false} BlockElemGroupScenario(root: Path, ext: string, b: string, e: string, g: string, m: string)
    requires IsName(b) && IsName(e) && IsName(g) && IsName(m)
    ensures var r := Scan(map[], root, ext, [b, b + "__" + e, b + "_" + g + "_" + m]);
      r.Ok?
      && root + [b, b + ext] in r.fs
      && r.fs[root + [b, b + ext]] == File(StubContent(b))
      && root + [b, "__" + e, b + "__" + e + ext] in r.fs
      && r.fs[root + [b, "__" + e, b + "__" + e + ext]] == File(StubContent(b + "__" + e))
      && root + [b, "_" + g, b + "_" + g + "_" + m + ext] in r.fs
      && r.fs[root + [b, "_" + g, b + "_" + g + "_" + m + ext]] == File(StubContent(b + "_" + g + "_" + m))
  {
    var tokens := [b, b + "__" + e, b + "_" + g + "_" + m];
    var fs: FileSystem := map[];
    FreshScanSucceeds(fs, root, ext, tokens);
    assert Classify(tokens[0]) == Block(b) by {
      assert BlockMatch(b, b);
      BlockIff(b);
    }
    assert Classify(tokens[1]) == Elem(b, e) by {
      assert ElemMatch(tokens[1], b, e);
      ElemIff(tokens[1], b, e);
    }
    assert Classify(tokens[2]) == GroupMod(b, g, m) by {
      assert GroupMatch(tokens[2], b, g, m);
      GroupIff(tokens[2], b, g, m);
    }
    BlockLayout(root, b, ext);
    ElemLayout(root, tokens[1], b, e, ext);
    GroupModLayout(root, tokens[2], b, g, m, ext);
    var s0, s1, s2 := Stub(root + [b], b), Stub(root + [b, "__" + e], b + "__" + e),
      Stub(root + [b, "_" + g], b + "_" + g + "_" + m);
    assert FilePath(s0, ext) == root + [b, b + ext];
    assert s0 in Targets(root, Classify(tokens[0]));
    assert s1 in Targets(root, Classify(tokens[1]));
    assert s2 in Targets(root, Classify(tokens[2]));
    ScanContents(fs, root, ext, tokens, 0, s0);
    ScanContents(fs, root, ext, tokens, 1, s1);
    ScanContents(fs, root, ext, tokens, 2, s2);
  }
}
