/** The class-token classifier of `parse_html_files`.

    The source tests four anchored regular expressions with `re.match`:
    a block `^(N)$`, an element `^(N)__(N)$`, a modifier `^(N)_(N)$` and a
    grouped modifier `^(N)_(N)_(N)$`, where `N` is `[a-zA-Z0-9-]+`. Python's
    `$` without MULTILINE matches at the very end of the string or just before
    one final newline, so the patterns are decided on `Subject(t)`, the token
    without such a newline.

    `Classify` decides the patterns by splitting the subject at underscores;
    the ghost predicates `BlockMatch` … `GroupMatch` state each regular
    expression directly, with its capture groups, and the lemmas below show
    the two agree in both directions.
 */
module Classifier {
  import opened Names

  /** What a class token is, with the parts `parse_html_files` extracts from it. */
  datatype Shape =
    | Block(name: string)
    | Elem(block: string, elem: string)
    | Mod(block: string, modifier: string)
    | GroupMod(block: string, group: string, modifier: string)
    | NoMatch

  /** The part of `t` that a pattern ending in `$` must cover: `t` without
      one trailing newline. */
  function Subject(t: string): (s: string)
    ensures t == s || t == s + "\n"
  {
    if |t| > 0 && t[|t| - 1] == '\n' then t[..|t| - 1] else t
  }

  /** The if/elif chain of genbemfs.py, tried in the source's order. A block
      keeps the whole token (the source passes `class_name` itself on), the
      other shapes keep the capture groups. */
  function Classify(t: string): Shape
  {
    var s := Subject(t);
    var p := Split(s);
    if IsName(s) then Block(t)
    else if |p| == 3 && IsName(p[0]) && p[1] == "" && IsName(p[2]) then Elem(p[0], p[2])
    else if |p| == 2 && IsName(p[0]) && IsName(p[1]) then Mod(p[0], p[1])
    else if |p| == 3 && IsName(p[0]) && IsName(p[1]) && IsName(p[2]) then GroupMod(p[0], p[1], p[2])
    else NoMatch
  }

  /** The class name a classified token stands for: the file stem and CSS
      selector the generator uses for it. */
  function Stem(shape: Shape): string
  {
    match shape
    case Block(name) => name
    case Elem(b, e) => b + "__" + e
    case Mod(b, m) => b + "_" + m
    case GroupMod(b, g, m) => b + "_" + g + "_" + m
    case NoMatch => ""
  }

  // ---------------------------------------------------------------------------
  // The four regular expressions, stated directly.

  /** `re.match(pattern, t)` for a pattern `^…$` whose body matched exactly `s`. */
  ghost predicate FullMatch(t: string, s: string) {
    t == s || t == s + "\n"
  }

  /** `^([a-zA-Z0-9-]+)$` matches `t` with group 1 equal to `b`. */
  ghost predicate BlockMatch(t: string, b: string) {
    IsName(b) && FullMatch(t, b)
  }

  /** `^([a-zA-Z0-9-]+)__([a-zA-Z0-9-]+)$` matches `t` with groups `b`, `e`. */
  ghost predicate ElemMatch(t: string, b: string, e: string) {
    IsName(b) && IsName(e) && FullMatch(t, b + "__" + e)
  }

  /** `^([a-zA-Z0-9-]+)_([a-zA-Z0-9-]+)$` matches `t` with groups `b`, `m`. */
  ghost predicate ModMatch(t: string, b: string, m: string) {
    IsName(b) && IsName(m) && FullMatch(t, b + "_" + m)
  }

  /** `^([a-zA-Z0-9-]+)_([a-zA-Z0-9-]+)_([a-zA-Z0-9-]+)$` matches `t` with groups `b`, `g`, `m`. */
  ghost predicate GroupMatch(t: string, b: string, g: string, m: string) {
    IsName(b) && IsName(g) && IsName(m) && FullMatch(t, b + "_" + g + "_" + m)
  }

  ghost predicate MatchesBlock(t: string) { exists b :: BlockMatch(t, b) }
  ghost predicate MatchesElem(t: string) { exists b, e :: ElemMatch(t, b, e) }
  ghost predicate MatchesMod(t: string) { exists b, m :: ModMatch(t, b, m) }
  ghost predicate MatchesGroup(t: string) { exists b, g, m :: GroupMatch(t, b, g, m) }

  // ---------------------------------------------------------------------------
  // Agreement of Classify with the regular expressions.

  /** When a pattern body that ends in a name character matched, the subject
      of the token is exactly what the body matched. */
  lemma SubjectOfMatch(t: string, s: string)
    requires FullMatch(t, s)
    requires |s| > 0 && IsNameChar(s[|s| - 1])
    ensures Subject(t) == s
  {
    if t == s + "\n" {
      assert t[..|t| - 1] == s;
    }
  }

  /** A string with an underscore at index `i` is not a name. */
  lemma UnderscoreNotName(s: string, i: int)
    requires 0 <= i < |s| && s[i] == '_'
    ensures !IsName(s)
  {
  }

  lemma {:induction false} JoinTwo(b: string, m: string)
    ensures Join([b, m]) == b + "_" + m
  {
    assert [b, m][1..] == [m];
  }

  lemma {:induction false} JoinThree(b: string, g: string, m: string)
    ensures Join([b, g, m]) == b + "_" + g + "_" + m
  {
    assert [b, g, m][1..] == [g, m];
    JoinTwo(g, m);
  }

  /** The token is classified as a block exactly when the block pattern
      matches it, and then the block is the token itself. */
  lemma {:induction false} BlockIff(t: string)
    ensures Classify(t).Block? <==> MatchesBlock(t)
    ensures Classify(t).Block? ==> Classify(t) == Block(t) && BlockMatch(t, Subject(t))
  {
    var s := Subject(t);
    if IsName(s) {
      assert BlockMatch(t, s);
    }
    if MatchesBlock(t) {
      var b :| BlockMatch(t, b);
      SubjectOfMatch(t, b);
    }
  }

  /** `Classify` yields `Elem(b, e)` exactly when the element pattern matches
      with groups `b` and `e`. */
  lemma {:induction false} ElemIff(t: string, b: string, e: string)
    ensures Classify(t) == Elem(b, e) <==> ElemMatch(t, b, e)
  {
    var s := Subject(t);
    if Classify(t) == Elem(b, e) {
      var p := Split(s);
      assert p == [b, "", e];
      JoinThree(b, "", e);
      assert b + "_" + "" + "_" + e == b + "__" + e;
    }
    if ElemMatch(t, b, e) {
      var w := b + "__" + e;
      SubjectOfMatch(t, w);
      NameHasNoUnderscore(b);
      NameHasNoUnderscore(e);
      JoinThree(b, "", e);
      assert b + "_" + "" + "_" + e == w;
      SplitJoin([b, "", e]);
      UnderscoreNotName(w, |b|);
    }
  }

  /** `Classify` yields `Mod(b, m)` exactly when the modifier pattern matches
      with groups `b` and `m`. */
  lemma {:induction false} ModIff(t: string, b: string, m: string)
    ensures Classify(t) == Mod(b, m) <==> ModMatch(t, b, m)
  {
    var s := Subject(t);
    if Classify(t) == Mod(b, m) {
      var p := Split(s);
      assert p == [b, m];
      JoinTwo(b, m);
    }
    if ModMatch(t, b, m) {
      var w := b + "_" + m;
      SubjectOfMatch(t, w);
      NameHasNoUnderscore(b);
      NameHasNoUnderscore(m);
      JoinTwo(b, m);
      SplitJoin([b, m]);
      UnderscoreNotName(w, |b|);
    }
  }

  /** `Classify` yields `GroupMod(b, g, m)` exactly when the grouped modifier
      pattern matches with groups `b`, `g` and `m`. */
  lemma {:induction false} GroupIff(t: string, b: string, g: string, m: string)
    ensures Classify(t) == GroupMod(b, g, m) <==> GroupMatch(t, b, g, m)
  {
    var s := Subject(t);
    if Classify(t) == GroupMod(b, g, m) {
      var p := Split(s);
      assert p == [b, g, m];
      JoinThree(b, g, m);
    }
    if GroupMatch(t, b, g, m) {
      var w := b + "_" + g + "_" + m;
      SubjectOfMatch(t, w);
      NameHasNoUnderscore(b);
      NameHasNoUnderscore(g);
      NameHasNoUnderscore(m);
      JoinThree(b, g, m);
      SplitJoin([b, g, m]);
      UnderscoreNotName(w, |b|);
    }
  }

  /** A token is skipped exactly when none of the four patterns matches it. */
  lemma NoMatchIff(t: string)
    ensures Classify(t) == NoMatch <==>
      !MatchesBlock(t) && !MatchesElem(t) && !MatchesMod(t) && !MatchesGroup(t)
  {
    BlockIff(t);
    if MatchesElem(t) {
      var b, e :| ElemMatch(t, b, e);
      ElemIff(t, b, e);
    }
    if MatchesMod(t) {
      var b, m :| ModMatch(t, b, m);
      ModIff(t, b, m);
    }
    if MatchesGroup(t) {
      var b, g, m :| GroupMatch(t, b, g, m);
      GroupIff(t, b, g, m);
    }
    match Classify(t)
    case Block(_) =>
    case Elem(b, e) => ElemIff(t, b, e);
    case Mod(b, m) => ModIff(t, b, m);
    case GroupMod(b, g, m) => GroupIff(t, b, g, m);
    case NoMatch =>
  }

  /** The four patterns are pairwise disjoint, so at most one branch of the
      if/elif chain can fire and its order does not change the outcome. */
  lemma PatternsDisjoint(t: string)
    ensures MatchesBlock(t) ==> !MatchesElem(t) && !MatchesMod(t) && !MatchesGroup(t)
    ensures MatchesElem(t) ==> !MatchesMod(t) && !MatchesGroup(t)
    ensures MatchesMod(t) ==> !MatchesGroup(t)
  {
    BlockIff(t);
    forall b, e | ElemMatch(t, b, e) ensures Classify(t) == Elem(b, e) {
      ElemIff(t, b, e);
    }
    forall b, m | ModMatch(t, b, m) ensures Classify(t) == Mod(b, m) {
      ModIff(t, b, m);
    }
    forall b, g, m | GroupMatch(t, b, g, m) ensures Classify(t) == GroupMod(b, g, m) {
      GroupIff(t, b, g, m);
    }
  }

  /** Rebuilding the class name from the extracted parts gives back the
      token: exactly for a block, and up to the one trailing newline that
      `$` tolerates for the other shapes. */
  lemma {:induction false} StemRoundTrip(t: string)
    requires Classify(t) != NoMatch
    ensures Classify(t).Block? ==> Stem(Classify(t)) == t
    ensures !Classify(t).Block? ==> Stem(Classify(t)) == Subject(t)
    ensures (|t| == 0 || t[|t| - 1] != '\n') ==> Stem(Classify(t)) == t
  {
    match Classify(t)
    case Block(_) =>
    case Elem(b, e) => ElemIff(t, b, e); SubjectOfMatch(t, b + "__" + e);
    case Mod(b, m) => ModIff(t, b, m); SubjectOfMatch(t, b + "_" + m);
    case GroupMod(b, g, m) => GroupIff(t, b, g, m); SubjectOfMatch(t, b + "_" + g + "_" + m);
  }

  /** A character allowed somewhere in a classifiable token: `[A-Za-z0-9-_]`. */
  predicate InAlphabet(c: char) {
    IsNameChar(c) || c == '_'
  }

  /** Names joined by underscores stay within the alphabet. */
  lemma {:induction false} JoinAlphabet(parts: seq<string>)
    requires |parts| >= 1
    requires forall k :: 0 <= k < |parts| ==> IsName(parts[k]) || parts[k] == ""
    ensures forall i :: 0 <= i < |Join(parts)| ==> InAlphabet(Join(parts)[i])
    decreases |parts|
  {
    if |parts| > 1 {
      JoinAlphabet(parts[1..]);
      var head, tail := parts[0], Join(parts[1..]);
      assert IsName(head) || head == "";
      forall i | 0 <= i < |Join(parts)| ensures InAlphabet(Join(parts)[i]) {
        if i < |head| {
          assert Join(parts)[i] == head[i];
        } else if i > |head| {
          assert Join(parts)[i] == tail[i - |head| - 1];
        }
      }
    }
  }

  /** A character outside `[A-Za-z0-9-_]` anywhere in the token, other than
      one final newline, makes the token unclassifiable. */
  lemma {:induction false} ForeignCharNoMatch(t: string, i: int)
    requires 0 <= i < |t|
    requires !InAlphabet(t[i])
    requires !(i == |t| - 1 && t[i] == '\n')
    ensures Classify(t) == NoMatch
  {
    var s := Subject(t);
    assert i < |s| && s[i] == t[i];
    var p := Split(s);
    if Classify(t).Elem? || Classify(t).Mod? || Classify(t).GroupMod? {
      JoinAlphabet(p);
    }
  }

  /** A token whose subject starts or ends with an underscore is skipped:
      every pattern begins and ends with a name part. */
  lemma {:induction false} EdgeUnderscoreNoMatch(t: string)
    requires |Subject(t)| > 0
    requires Subject(t)[0] == '_' || Subject(t)[|Subject(t)| - 1] == '_'
    ensures Classify(t) == NoMatch
  {
    var s := Subject(t);
    var p := Split(s);
    if Classify(t) != NoMatch && !IsName(s) {
      if |p| == 2 {
        assert p == [p[0], p[1]];
        JoinTwo(p[0], p[1]);
      } else {
        assert p == [p[0], p[1], p[2]];
        JoinThree(p[0], p[1], p[2]);
      }
    }
  }

  lemma JoinCons(x: string, rest: seq<string>)
    requires |rest| >= 1
    ensures Join([x] + rest) == x + "_" + Join(rest)
  {
    assert ([x] + rest)[1..] == rest;
  }

  /** Three underscores in a row fit none of the shapes. */
  lemma TripleUnderscoreNoMatch()
    ensures Classify("a___b") == NoMatch
  {
    JoinThree("", "", "b");
    JoinCons("a", ["", "", "b"]);
    assert ["a"] + ["", "", "b"] == ["a", "", "", "b"];
    assert "a" + "_" + ("" + "_" + "" + "_" + "b") == "a___b";
    SplitJoin(["a", "", "", "b"]);
  }

  /** An element marker followed by a further underscore fits none of the shapes. */
  lemma ElemThenModNoMatch()
    ensures Classify("a__b_c") == NoMatch
  {
    JoinThree("", "b", "c");
    JoinCons("a", ["", "b", "c"]);
    assert ["a"] + ["", "b", "c"] == ["a", "", "b", "c"];
    assert "a" + "_" + ("" + "_" + "b" + "_" + "c") == "a__b_c";
    SplitJoin(["a", "", "b", "c"]);
  }

  /** The tokens of the card scenario: a block, an element and a grouped modifier. */
  lemma CardBlock()
    ensures Classify("card") == Block("card")
  {
    assert IsName("card");
  }

  lemma CardTitle()
    ensures Classify("card__title") == Elem("card", "title")
  {
    assert ElemMatch("card__title", "card", "title");
    ElemIff("card__title", "card", "title");
  }

  lemma CardThemeDark()
    ensures Classify("card_theme_dark") == GroupMod("card", "theme", "dark")
  {
    assert GroupMatch("card_theme_dark", "card", "theme", "dark");
    GroupIff("card_theme_dark", "card", "theme", "dark");
  }
}
