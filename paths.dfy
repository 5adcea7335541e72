/** The part of System.IO.Path the caller-info enricher uses, for paths with
    one separator and no root: a path is the sequence of its segments, the
    text between separators, innermost (the file name) last. */
module Paths {
  import opened Common

  /** A path is made of non-empty segments, none of which holds the
      separator: the text between two separators, with no doubled or trailing
      separator. */
  predicate WellFormed(p: seq<string>)
  {
    forall i :: 0 <= i < |p| ==> IsSegment(p[i])
  }

  /** A segment: non-empty, without a separator. */
  predicate IsSegment(s: string)
  {
    s != "" && NoSeparator(s)
  }

  /** No character of `s` is the separator, stated character by character. */
  predicate NoSeparator(s: string)
  {
    s == [] || (s[0] != Separator && NoSeparator(s[1..]))
  }

  lemma {:induction false} NoSeparatorNotIn(s: string)
    ensures NoSeparator(s) <==> Separator !in s
  {
    if s != [] {
      NoSeparatorNotIn(s[1..]);
      assert s == [s[0]] + s[1..];
    }
  }

  type FilePath = p: seq<string> | WellFormed(p)

  /** The one directory separator of the model (Path.DirectorySeparatorChar). */
  const Separator: char := '/'

  /** The text of a path: its segments joined by the separator. This is also
      what Path.Combine makes of a list of segments. Since no segment is empty
      or holds the separator, the text is empty only for the empty path and
      holds exactly one separator between each two segments. */
  function PathText(p: FilePath): (t: string)
    ensures t == [] <==> p == []
  {
    if |p| == 0 then ""
    else if |p| == 1 then p[0]
    else PathText(p[..|p| - 1]) + [Separator] + p[|p| - 1]
  }

  /** Path.GetFileName: the last segment ("" for the empty path), which is
      the text after the last separator. */
  function FileName(p: FilePath): (name: string)
    ensures p != [] <==> name != ""
    ensures name != "" ==> IsSegment(name)
  {
    if p == [] then "" else p[|p| - 1]
  }

  /** Path.GetDirectoryName: every segment but the last, whose text is the
      text before the last separator. */
  function DirectoryName(p: FilePath): (d: FilePath)
    ensures p == [] ==> d == []
    ensures p != [] ==> |d| == |p| - 1
  {
    if p == [] then [] else p[..|p| - 1]
  }

  /** The file name is the last segment and the directory name every
      segment before it; the file name holds no separator. */
  lemma SplitAtLastSeparator(p: FilePath)
    requires p != []
    ensures DirectoryName(p) + [FileName(p)] == p
    ensures Separator !in FileName(p)
  {
    var name := p[|p| - 1];
    assert p[..|p| - 1] + [name] == p;
    assert Separator !in name by {
      assert IsSegment(name);
      NoSeparatorNotIn(name);
    }
  }

  /** In the text, the file name is what follows the last separator and the
      directory name what precedes it; without a separator the whole text is
      the file name. */
  lemma PathTextAtLastSeparator(p: FilePath)
    requires p != []
    ensures |p| == 1 ==> PathText(p) == FileName(p)
    ensures |p| >= 2 ==> PathText(p) == PathText(DirectoryName(p)) + [Separator] + FileName(p)
  {
    if |p| == 1 {
      PathTextSingle(p);
    } else {
      PathTextSnoc(p);
    }
  }

  /** The text of a one-segment path is that segment. */
  lemma PathTextSingle(p: FilePath)
    requires |p| == 1
    ensures PathText(p) == p[0]
  {
  }

  /** The text of a longer path is the text of all but its last segment, a
      separator, then the last segment. */
  lemma PathTextSnoc(p: FilePath)
    requires |p| >= 2
    ensures PathText(p) == PathText(p[..|p| - 1]) + [Separator] + p[|p| - 1]
  {
  }

  /** List.Reverse, as a value. */
  function Reversed(s: seq<string>): (r: seq<string>)
    ensures |r| == |s|
  {
    if s == [] then [] else [s[|s| - 1]] + Reversed(s[..|s| - 1])
  }

  /** The text of a path is blank (empty or white space) exactly when the path
      has no segment, or one blank segment: a path of two or more segments
      contains a separator, which is not white space. */
  lemma {:induction false} PathTextBlank(p: FilePath)
    ensures IsWhiteSpace(PathText(p)) <==> p == [] || (|p| == 1 && IsWhiteSpace(p[0]))
  {
    if |p| >= 2 {
      var head := PathText(p[..|p| - 1]);
      assert PathText(p)[|head|] == Separator;
    }
  }

  /** The `i`th element of the reversal is the `i`th from the end. */
  lemma {:induction false} ReversedAt(s: seq<string>)
    ensures forall i :: 0 <= i < |s| ==> Reversed(s)[i] == s[|s| - 1 - i]
  {
    if s != [] {
      ReversedAt(s[..|s| - 1]);
    }
  }

  /** The text of a path holds one separator between each two segments and
      no other: no segment holds one. */
  lemma {:induction false} PathTextSeparators(p: FilePath)
    ensures multiset(PathText(p))[Separator] == if p == [] then 0 else |p| - 1
  {
    if p != [] {
      NoSeparatorNotIn(p[|p| - 1]);
      assert multiset(p[|p| - 1])[Separator] == 0;
      if |p| >= 2 {
        PathTextSeparators(p[..|p| - 1]);
      }
    }
  }

  /** Reversing after appending puts the new element first. */
  lemma ReversedAppend(s: seq<string>, x: string)
    ensures Reversed(s + [x]) == [x] + Reversed(s)
  {
    assert (s + [x])[..|s|] == s;
  }
}
