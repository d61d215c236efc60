/** Character-level vocabulary of BEM class names.

    A name part is one or more characters of `[a-zA-Z0-9-]`; parts are
    separated by underscores. `Split` cuts a string at every underscore and
    `Join` glues the parts back; the two are inverse to each other on parts
    that contain no underscore, which is what lets a regular expression over
    name parts be decided by looking at the split.
 */
module Names {

  /** A character of the class `[a-zA-Z0-9-]` (ASCII only, as in a Python `str` pattern). */
  predicate IsNameChar(c: char) {
    ('a' <= c <= 'z') || ('A' <= c <= 'Z') || ('0' <= c <= '9') || c == '-'
  }

  /** The regular expression `[a-zA-Z0-9-]+`. */
  predicate IsName(s: string) {
    |s| > 0 && forall i :: 0 <= i < |s| ==> IsNameChar(s[i])
  }

  predicate NoUnderscore(s: string) {
    forall i :: 0 <= i < |s| ==> s[i] != '_'
  }

  /** Underscore-separated concatenation of at least one part. */
  function Join(parts: seq<string>): string
    requires |parts| >= 1
  {
    if |parts| == 1 then parts[0] else parts[0] + "_" + Join(parts[1..])
  }

  /** The pieces of `s` between its underscores, in order. An empty string
      and every pair of adjacent underscores yield an empty piece. */
  function Split(s: string): (parts: seq<string>)
    ensures |parts| >= 1
    ensures forall i :: 0 <= i < |parts| ==> NoUnderscore(parts[i])
    ensures Join(parts) == s
    decreases |s|
  {
    if s == [] then [[]]
    else if s[0] == '_' then [[]] + Split(s[1..])
    else
      var rest := Split(s[1..]);
      [[s[0]] + rest[0]] + rest[1..]
  }

  /** A name part never contains an underscore. */
  lemma NameHasNoUnderscore(s: string)
    requires IsName(s)
    ensures NoUnderscore(s)
  {
  }

  /** Splitting a string that starts with an underscore-free prefix glues
      that prefix onto the first piece and leaves the other pieces alone. */
  lemma {:induction false} SplitPrefix(x: string, s: string)
    requires NoUnderscore(x)
    ensures Split(x + s) == [x + Split(s)[0]] + Split(s)[1..]
    decreases |x|
  {
    if x != [] {
      assert (x + s)[0] == x[0];
      assert (x + s)[1..] == x[1..] + s;
      SplitPrefix(x[1..], s);
      assert [x[0]] + (x[1..] + Split(s)[0]) == x + Split(s)[0];
    } else {
      assert x + s == s;
      assert x + Split(s)[0] == Split(s)[0];
      assert Split(s) == [Split(s)[0]] + Split(s)[1..];
    }
  }

  /** `Split` undoes `Join` when no part carries an underscore of its own. */
  lemma {:induction false} SplitJoin(parts: seq<string>)
    requires |parts| >= 1
    requires forall i :: 0 <= i < |parts| ==> NoUnderscore(parts[i])
    ensures Split(Join(parts)) == parts
    decreases |parts|
  {
    if |parts| == 1 {
      SplitPrefix(parts[0], []);
      assert parts[0] + [] == parts[0];
    } else {
      var tail := Join(parts[1..]);
      SplitJoin(parts[1..]);
      SplitPrefix(parts[0], "_" + tail);
      assert ("_" + tail)[0] == '_' && ("_" + tail)[1..] == tail;
      assert Split("_" + tail) == [[]] + parts[1..];
      assert parts[0] + [] == parts[0];
      assert parts == [parts[0]] + parts[1..];
    }
  }
}
