/** Normalized absolute POSIX paths as component lists, and their text. */
module PosixPaths {

  type Path = seq<string>

  predicate Component(name: string) { name != "" && name != "." && '/' !in name }

  predicate Normal(path: Path) { forall i :: 0 <= i < |path| ==> Component(path[i]) }

  /** The text of a path; the root alone has the empty text, as a prefix of other paths. */
  function Text(path: Path): string {
    if path == [] then "" else "/" + path[0] + Text(path[1..])
  }

  predicate Absolute(text: string) { text != "" && text[0] == '/' }

  /** How many characters precede the next separator. */
  function Segment(text: string): (n: nat)
    ensures n <= |text| && forall k :: 0 <= k < n ==> text[k] != '/'
    ensures n < |text| ==> text[n] == '/'
  {
    if text == "" || text[0] == '/' then 0
    else
      1 + Segment(text[1..])
  }

  function Split(text: string): Path
    requires text == "" || Absolute(text)
  {
    if text == "" then [] else
      var n := Segment(text[1..]);
      [text[1..n + 1]] + Split(text[n + 1..])
  }

  lemma {:induction false} SegmentOf(name: string, rest: string)
    requires '/' !in name && (rest == "" || rest[0] == '/')
    ensures Segment(name + rest) == |name|
  {
    if name == "" {
      assert name + rest == rest;
    } else {
      assert (name + rest)[1..] == name[1..] + rest;
      SegmentOf(name[1..], rest);
    }
  }

  lemma {:induction false} TextIsAbsolute(path: Path)
    ensures Text(path) == "" <==> path == []
    ensures path != [] ==> Absolute(Text(path))
  {
  }

  lemma {:induction false} TextOfAppend(a: Path, b: Path)
    ensures Text(a + b) == Text(a) + Text(b)
  {
    if a == [] {
      assert a + b == b;
    } else {
      assert (a + b)[1..] == a[1..] + b;
      TextOfAppend(a[1..], b);
    }
  }

  /** A path is recovered from its text. */
  lemma {:induction false} SplitAfterText(path: Path)
    requires Normal(path)
    ensures Text(path) == "" || Absolute(Text(path))
    ensures Split(Text(path)) == path
  {
    if path != [] {
      var rest := Text(path[1..]);
      TextIsAbsolute(path[1..]);
      var text := Text(path);
      assert text[1..] == path[0] + rest;
      SegmentOf(path[0], rest);
      assert text[1..|path[0]| + 1] == path[0];
      assert text[|path[0]| + 1..] == rest;
      SplitAfterText(path[1..]);
    }
  }

  lemma {:induction false} TextAfterSplit(text: string)
    requires text == "" || Absolute(text)
    ensures Text(Split(text)) == text
  {
    if text != "" {
      var n := Segment(text[1..]);
      TextAfterSplit(text[n + 1..]);
      assert [text[1..n + 1]] + Split(text[n + 1..]) == Split(text);
      assert text == ['/'] + text[1..n + 1] + text[n + 1..];
    }
  }

  /** The final component of a text. */
  function FinalName(text: string): string {
    if '/' !in text then text else FinalName(text[Segment(text) + 1..])
  }

  lemma {:induction false} FinalNameOf(prefix: string, name: string)
    requires '/' !in name
    ensures FinalName(prefix + "/" + name) == name
    decreases |prefix|
  {
    var text := prefix + "/" + name;
    assert text[|prefix|] == '/';
    var n := Segment(text);
    if '/' in prefix {
      var k :| 0 <= k < |prefix| && prefix[k] == '/';
      assert text[k] == '/';
      assert text[n + 1..] == prefix[n + 1..] + "/" + name;
      FinalNameOf(prefix[n + 1..], name);
    } else {
      SegmentOf(prefix, "/" + name);
      assert text == prefix + ("/" + name);
      assert text[n + 1..] == name;
    }
  }
}
