/** Where `create_block_file`, `create_elem_file` and `create_mod_file` put a
    stylesheet stub, and what a fresh stub contains.

    Paths are sequences of segments rather than joined strings. The output
    root is an opaque prefix of segments; `os.path.join` with an empty
    component only adds or drops a separator, so `JoinPath` drops empty
    components.
 */
module Layout {
  import opened Names
  import opened Classifier

  type Path = seq<string>

  /** A stub to create: the directory `create_style_file` is given and the
      file name without extension, which is also the CSS selector. */
  datatype Stub = Stub(dir: Path, stem: string)

  /** The text written into a new stub: one empty rule for the selector. */
  const RuleBody: string := " {\n    \n}"

  function StubContent(stem: string): string {
    "." + stem + RuleBody
  }

  /** The non-empty components, in order. */
  function NonEmpty(parts: seq<string>): (r: seq<string>)
    ensures |r| <= |parts|
    ensures forall i :: 0 <= i < |r| ==> r[i] != ""
    ensures forall x :: x != "" ==> (x in r <==> x in parts)
    ensures (forall i :: 0 <= i < |parts| ==> parts[i] != "") ==> r == parts
    decreases |parts|
  {
    if parts == [] then []
    else if parts[0] == "" then NonEmpty(parts[1..])
    else [parts[0]] + NonEmpty(parts[1..])
  }

  /** A single component becomes a segment exactly when it is non-empty. */
  lemma NonEmptySingle(x: string)
    ensures NonEmpty([x]) == if x == "" then [] else [x]
  {
    var one: seq<string> := [x];
    assert one[1..] == [];
  }

  /** Components are filtered one by one, so the kept ones stay in their
      order and none is repeated. */
  lemma {:induction false} NonEmptyAppend(a: seq<string>, b: seq<string>)
    ensures NonEmpty(a + b) == NonEmpty(a) + NonEmpty(b)
    decreases |a|
  {
    if a == [] {
      assert a + b == b;
    } else {
      assert (a + b)[0] == a[0];
      assert (a + b)[1..] == a[1..] + b;
      NonEmptyAppend(a[1..], b);
    }
  }

  /** `os.path.join(base, parts...)` for components without separators:
      every non-empty component becomes one more segment. */
  function JoinPath(base: Path, parts: seq<string>): Path
  {
    base + NonEmpty(parts)
  }

  lemma JoinPathPair(base: Path, x: string, y: string)
    ensures JoinPath(base, [x, y])
      == base + (if x == "" then [] else [x]) + (if y == "" then [] else [y])
  {
    assert [x, y][1..] == [y];
    assert [y][1..] == [];
    assert NonEmpty([y]) == (if y == "" then [] else [y]);
  }

  /** The file `create_style_file` writes for a stub, with extension `ext`. */
  function FilePath(st: Stub, ext: string): Path {
    JoinPath(st.dir, [st.stem + ext])
  }

  lemma FilePathOf(st: Stub, ext: string)
    requires st.stem != ""
    ensures FilePath(st, ext) == st.dir + [st.stem + ext]
  {
    var x := st.stem + ext;
    assert x != "" by { assert x[0] == st.stem[0]; }
    var one: seq<string> := [x];
    assert one[1..] == [];
  }

  /** `create_block_file`: the block's own directory under the root. */
  function BlockStub(root: Path, b: string): (st: Stub)
    ensures b != "" ==> st == Stub(root + [b], b)
  {
    Stub(JoinPath(root, [b]), b)
  }

  /** `create_elem_file`: a `__e` directory inside the block directory. */
  function ElemStub(root: Path, b: string, e: string): (st: Stub)
    ensures b != "" ==> st == Stub(root + [b, "__" + e], b + "__" + e)
  {
    Stub(JoinPath(root, [b, "__" + e]), b + "__" + e)
  }

  /** `create_mod_file`, where an empty `group` stands for Python's falsy
      `None`: without a group the modifier gets its own `_m` directory; with
      one, the stub goes into a single `_g` directory and the modifier only
      appears in the file name. */
  function ModStub(root: Path, b: string, m: string, group: string): (st: Stub)
    ensures b != "" && group == "" ==> st == Stub(root + [b, "_" + m], b + "_" + m)
    ensures b != "" && group != "" ==> st == Stub(root + [b, "_" + group], b + "_" + group + "_" + m)
  {
    var blockDir := JoinPath(root, [b]);
    var groupName := if group != "" then "_" + group else "";
    var modName := if group == "" then "_" + m else "";
    JoinPathPair(blockDir, groupName, modName);
    Stub(JoinPath(blockDir, [groupName, modName]), b + groupName + "_" + m)
  }

  /** The stubs `parse_html_files` asks for, in call order, for one class
      token of the given shape: the block first, then the element or
      modifier. */
  function Targets(root: Path, shape: Shape): seq<Stub>
  {
    match shape
    case Block(name) => [BlockStub(root, name)]
    case Elem(b, e) => [BlockStub(root, b), ElemStub(root, b, e)]
    case Mod(b, m) => [BlockStub(root, b), ModStub(root, b, m, "")]
    case GroupMod(b, g, m) => [BlockStub(root, b), ModStub(root, b, m, g)]
    case NoMatch => []
  }

  /** The last stub a classified token asks for is named after the class
      itself: the token, when it does not end in a newline. */
  lemma {:induction false} LastTargetStem(root: Path, t: string)
    requires Classify(t) != NoMatch
    ensures var ts := Targets(root, Classify(t));
      |ts| >= 1 && ts[|ts| - 1].stem == Stem(Classify(t))
    ensures var ts := Targets(root, Classify(t));
      (|t| == 0 || t[|t| - 1] != '\n') ==> |ts| >= 1 && ts[|ts| - 1].stem == t
  {
    StemRoundTrip(t);
    match Classify(t) {
      case Block(_) =>
      case Elem(_, _) =>
      case Mod(_, _) =>
      case GroupMod(b, g, m) => GroupIff(t, b, g, m);
    }
  }

  /** A block token `b` gets the one stub `root/b/b.ext`. */
  lemma BlockLayout(root: Path, t: string, ext: string)
    requires Classify(t).Block?
    ensures Targets(root, Classify(t)) == [Stub(root + [t], t)]
    ensures FilePath(Stub(root + [t], t), ext) == root + [t, t + ext]
  {
    BlockIff(t);
    assert IsName(Subject(t));
  }

  /** An element token `b__e` gets the block stub, then `root/b/__e/b__e.ext`. */
  lemma ElemLayout(root: Path, t: string, b: string, e: string, ext: string)
    requires Classify(t) == Elem(b, e)
    ensures Targets(root, Classify(t)) == [Stub(root + [b], b), Stub(root + [b, "__" + e], b + "__" + e)]
    ensures FilePath(Stub(root + [b, "__" + e], b + "__" + e), ext) == root + [b, "__" + e, b + "__" + e + ext]
  {
    ElemIff(t, b, e);
  }

  /** A modifier token `b_m` gets the block stub, then `root/b/_m/b_m.ext`. */
  lemma ModLayout(root: Path, t: string, b: string, m: string, ext: string)
    requires Classify(t) == Mod(b, m)
    ensures Targets(root, Classify(t)) == [Stub(root + [b], b), Stub(root + [b, "_" + m], b + "_" + m)]
    ensures FilePath(Stub(root + [b, "_" + m], b + "_" + m), ext) == root + [b, "_" + m, b + "_" + m + ext]
  {
    ModIff(t, b, m);
  }

  /** A grouped modifier token `b_g_m` gets the block stub, then
      `root/b/_g/b_g_m.ext`: one `_g` level and no `_m` directory. */
  lemma GroupModLayout(root: Path, t: string, b: string, g: string, m: string, ext: string)
    requires Classify(t) == GroupMod(b, g, m)
    ensures Targets(root, Classify(t)) == [Stub(root + [b], b), Stub(root + [b, "_" + g], b + "_" + g + "_" + m)]
    ensures FilePath(Stub(root + [b, "_" + g], b + "_" + g + "_" + m), ext)
      == root + [b, "_" + g, b + "_" + g + "_" + m + ext]
  {
    GroupIff(t, b, g, m);
  }

  /** The shape of every stub the generator asks for: directly in a block
      directory below the root, or one level deeper in a directory whose
      name starts with an underscore; the stem never starts with one. */
  predicate WellShaped(root: Path, st: Stub) {
    |root| + 1 <= |st.dir| <= |root| + 2 && st.dir[..|root|] == root
    && st.stem != "" && st.stem[0] != '_'
    && (|st.dir| == |root| + 2 ==> st.dir[|root| + 1] != "" && st.dir[|root| + 1][0] == '_')
  }

  lemma BlockDirWellShaped(root: Path, b: string, stem: string)
    requires b != "" && stem != "" && stem[0] != '_'
    ensures WellShaped(root, Stub(root + [b], stem))
  {
    assert (root + [b])[..|root|] == root;
  }

  lemma SubDirWellShaped(root: Path, b: string, sub: string, stem: string)
    requires b != "" && sub != "" && sub[0] == '_' && stem != "" && stem[0] != '_'
    ensures WellShaped(root, Stub(root + [b, sub], stem))
  {
    assert (root + [b, sub])[..|root|] == root;
  }

  lemma BlockTargetsWellShaped(root: Path, t: string)
    requires Classify(t).Block?
    ensures forall i :: 0 <= i < |Targets(root, Classify(t))| ==> WellShaped(root, Targets(root, Classify(t))[i])
  {
    BlockIff(t);
    assert IsName(Subject(t)) && Subject(t)[0] == t[0];
    assert Targets(root, Classify(t)) == [Stub(root + [t], t)];
    BlockDirWellShaped(root, t, t);
  }

  lemma ElemTargetsWellShaped(root: Path, t: string, b: string, e: string)
    requires Classify(t) == Elem(b, e)
    ensures forall i :: 0 <= i < |Targets(root, Classify(t))| ==> WellShaped(root, Targets(root, Classify(t))[i])
  {
    ElemIff(t, b, e);
    assert Targets(root, Classify(t)) == [Stub(root + [b], b), Stub(root + [b, "__" + e], b + "__" + e)];
    assert (b + "__" + e)[0] == b[0];
    BlockDirWellShaped(root, b, b);
    SubDirWellShaped(root, b, "__" + e, b + "__" + e);
  }

  lemma ModTargetsWellShaped(root: Path, t: string, b: string, m: string)
    requires Classify(t) == Mod(b, m)
    ensures forall i :: 0 <= i < |Targets(root, Classify(t))| ==> WellShaped(root, Targets(root, Classify(t))[i])
  {
    ModIff(t, b, m);
    assert Targets(root, Classify(t)) == [Stub(root + [b], b), Stub(root + [b, "_" + m], b + "_" + m)];
    assert (b + "_" + m)[0] == b[0];
    BlockDirWellShaped(root, b, b);
    SubDirWellShaped(root, b, "_" + m, b + "_" + m);
  }

  lemma GroupModTargetsWellShaped(root: Path, t: string, b: string, g: string, m: string)
    requires Classify(t) == GroupMod(b, g, m)
    ensures forall i :: 0 <= i < |Targets(root, Classify(t))| ==> WellShaped(root, Targets(root, Classify(t))[i])
  {
    GroupIff(t, b, g, m);
    assert Targets(root, Classify(t)) == [Stub(root + [b], b), Stub(root + [b, "_" + g], b + "_" + g + "_" + m)];
    assert (b + "_" + g + "_" + m)[0] == b[0];
    BlockDirWellShaped(root, b, b);
    SubDirWellShaped(root, b, "_" + g, b + "_" + g + "_" + m);
  }

  /** Every stub a classified token asks for is well shaped. */
  lemma {:induction false} TargetsWellShaped(root: Path, t: string)
    ensures forall i :: 0 <= i < |Targets(root, Classify(t))| ==> WellShaped(root, Targets(root, Classify(t))[i])
  {
    match Classify(t) {
      case Block(_) => BlockTargetsWellShaped(root, t);
      case Elem(b, e) => ElemTargetsWellShaped(root, t, b, e);
      case Mod(b, m) => ModTargetsWellShaped(root, t, b, m);
      case GroupMod(b, g, m) => GroupModTargetsWellShaped(root, t, b, g, m);
      case NoMatch =>
    }
  }
}
