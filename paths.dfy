/** The string operations MapGenerator applies to '/'-separated paths, with the meaning
    JavaScript gives them. */
module Paths {

  const Separator: char := '/'

  /** String.prototype.split("/"): the pieces between separators, in order. The empty
      string gives [""], and a leading or trailing separator gives an empty first or
      last piece. */
  function Split(s: string): (parts: seq<string>)
    ensures |parts| >= 1
    decreases |s|
  {
    if |s| == 0 then [""]
    else
      var rest := Split(s[1..]);
      if s[0] == Separator then [""] + rest
      else [[s[0]] + rest[0]] + rest[1..]
  }

  /** The pieces put back together with a separator between each two. */
  function Join(parts: seq<string>): string
    requires |parts| >= 1
    decreases |parts|
  {
    if |parts| == 1 then parts[0] else parts[0] + [Separator] + Join(parts[1..])
  }

  predicate NoSeparator(s: string) {
    Separator !in s
  }

  /** String.prototype.substring(start) with one argument: everything from index start
      on, and "" when start is past the end. */
  function Substring(s: string, start: nat): string {
    if start <= |s| then s[start..] else ""
  }

  /** The name the root District gets: the last element of path.split("/"). */
  function LastSegment(path: string): (name: string)
    ensures NoSeparator(name)
  {
    SplitPiecesHaveNoSeparator(path);
    var parts := Split(path);
    parts[|parts| - 1]
  }

  /** The District and Building names addBuilding derives from a file path: drop
      |rootPath| characters, split on "/" and discard the first piece. */
  function RelativePath(rootPath: string, path: string): (names: seq<string>)
    ensures forall i :: 0 <= i < |names| ==> NoSeparator(names[i])
  {
    SplitPiecesHaveNoSeparator(Substring(path, |rootPath|));
    Split(Substring(path, |rootPath|))[1..]
  }

  /** No piece of a split contains the separator. */
  lemma {:induction false} SplitPiecesHaveNoSeparator(s: string)
    ensures forall i :: 0 <= i < |Split(s)| ==> NoSeparator(Split(s)[i])
    decreases |s|
  {
    if |s| > 0 {
      SplitPiecesHaveNoSeparator(s[1..]);
      var rest := Split(s[1..]);
      if s[0] != Separator {
        assert [s[0]] + rest[0] == [s[0]] + rest[0];
        assert NoSeparator(rest[0]);
      }
    }
  }

  /** Joining what Split returns gives back the original string. */
  lemma {:induction false} JoinSplit(s: string)
    ensures Join(Split(s)) == s
    decreases |s|
  {
    if |s| > 0 {
      JoinSplit(s[1..]);
      var rest := Split(s[1..]);
      if s[0] == Separator {
        assert ([""] + rest)[1..] == rest;
      } else if |rest| > 1 {
        assert ([[s[0]] + rest[0]] + rest[1..])[1..] == rest[1..];
        assert s == [s[0]] + s[1..];
      }
    }
  }

  /** A prefix without separators is glued to the first piece of what follows it. */
  lemma {:induction false} SplitSeparatorFreePrefix(p: string, t: string)
    requires NoSeparator(p)
    ensures Split(p + t) == [p + Split(t)[0]] + Split(t)[1..]
    decreases |p|
  {
    var st := Split(t);
    if |p| == 0 {
      assert p + t == t && p + st[0] == st[0];
      assert st == [st[0]] + st[1..];
    } else {
      assert (p + t)[0] == p[0] && p[0] != Separator;
      assert (p + t)[1..] == p[1..] + t;
      SplitSeparatorFreePrefix(p[1..], t);
      assert p + st[0] == [p[0]] + (p[1..] + st[0]);
    }
  }

  /** Splitting what Join returns gives back the pieces, when no piece holds a separator. */
  lemma {:induction false} SplitJoin(parts: seq<string>)
    requires |parts| >= 1
    requires forall i :: 0 <= i < |parts| ==> NoSeparator(parts[i])
    ensures Split(Join(parts)) == parts
    decreases |parts|
  {
    if |parts| == 1 {
      SplitSeparatorFreePrefix(parts[0], "");
      assert parts[0] + "" == parts[0];
    } else {
      var t := [Separator] + Join(parts[1..]);
      SplitJoin(parts[1..]);
      assert t[1..] == Join(parts[1..]);
      assert Split(t) == [""] + parts[1..];
      SplitSeparatorFreePrefix(parts[0], t);
      assert parts[0] + t == Join(parts);
      assert parts[0] + "" == parts[0];
      assert parts == [parts[0]] + parts[1..];
    }
  }

  /** The piece after the last separator closes the joined string. */
  lemma {:induction false} JoinLast(parts: seq<string>)
    requires |parts| >= 2
    ensures Join(parts) == Join(parts[..|parts| - 1]) + [Separator] + parts[|parts| - 1]
    decreases |parts|
  {
    var n := |parts|;
    var last := parts[n - 1];
    if n == 2 {
      assert parts[1..] == [last] && parts[..1] == [parts[0]];
    } else {
      var tail := parts[1..];
      JoinLast(tail);
      var middle := Join(tail[..n - 2]);
      assert tail[n - 2] == last;
      assert parts[..n - 1][1..] == tail[..n - 2];
      assert Join(parts[..n - 1]) == parts[0] + [Separator] + middle;
      ConcatAssociates(parts[0] + [Separator], middle, [Separator] + last);
      ConcatAssociates(middle, [Separator], last);
      ConcatAssociates(parts[0] + [Separator] + middle, [Separator], last);
    }
  }

  /** The root name is the part of path after its last separator: a suffix of path
      without separators that is either all of path or preceded by a separator. */
  lemma LastSegmentIsBaseName(path: string)
    ensures |LastSegment(path)| <= |path|
    ensures path[|path| - |LastSegment(path)|..] == LastSegment(path)
    ensures |LastSegment(path)| < |path| ==> path[|path| - |LastSegment(path)| - 1] == Separator
  {
    var parts := Split(path);
    var last := parts[|parts| - 1];
    SplitPiecesHaveNoSeparator(path);
    JoinSplit(path);
    if |parts| >= 2 {
      JoinLast(parts);
      var prefix := Join(parts[..|parts| - 1]);
      assert path == (prefix + [Separator]) + last;
      assert path[|path| - |last| - 1] == Separator;
    } else {
      assert path == last;
    }
  }

  /** A file path that is the root path, a separator and then the joined pieces gives
      back exactly those pieces. */
  lemma RelativePathOfNestedFile(rootPath: string, segments: seq<string>)
    requires |segments| >= 1
    requires forall i :: 0 <= i < |segments| ==> NoSeparator(segments[i])
    ensures RelativePath(rootPath, rootPath + [Separator] + Join(segments)) == segments
  {
    ConcatAssociates(rootPath, [Separator], Join(segments));
    RelativePathAfterPrefix(rootPath, [Separator] + Join(segments));
    SplitSeparatedJoin(segments);
  }

  lemma ConcatAssociates(a: string, b: string, c: string)
    ensures a + b + c == a + (b + c)
  {
  }

  /** What follows the root prefix is what gets split. */
  lemma RelativePathAfterPrefix(rootPath: string, rest: string)
    ensures RelativePath(rootPath, rootPath + rest) == Split(rest)[1..]
  {
    assert (rootPath + rest)[|rootPath|..] == rest;
  }

  lemma SplitSeparatedJoin(segments: seq<string>)
    requires |segments| >= 1
    requires forall i :: 0 <= i < |segments| ==> NoSeparator(segments[i])
    ensures Split([Separator] + Join(segments))[1..] == segments
  {
    SplitAfterSeparator(Join(segments));
    SplitJoin(segments);
  }

  lemma SplitAfterSeparator(s: string)
    ensures Split([Separator] + s) == [""] + Split(s)
  {
    assert ([Separator] + s)[1..] == s;
  }

  /** The root directory itself has no relative pieces. */
  lemma RelativePathOfRoot(rootPath: string)
    ensures RelativePath(rootPath, rootPath) == []
  {
    assert Substring(rootPath, |rootPath|) == "";
  }

  /** The relative path is empty exactly when what is left after dropping the root
      prefix holds no separator; otherwise what is left is a separator-free first piece,
      a separator, and the names joined back together. */
  lemma RelativePathShape(rootPath: string, path: string)
    ensures |RelativePath(rootPath, path)| == 0 <==> NoSeparator(Substring(path, |rootPath|))
    ensures |RelativePath(rootPath, path)| > 0 ==>
              var rest := Substring(path, |rootPath|);
              var first := Split(rest)[0];
              && NoSeparator(first)
              && rest == first + [Separator] + Join(RelativePath(rootPath, path))
  {
    var rest := Substring(path, |rootPath|);
    var parts := Split(rest);
    SplitPiecesHaveNoSeparator(rest);
    JoinSplit(rest);
    if |parts| == 1 {
      assert rest == parts[0];
    } else {
      assert Separator in rest by {
        JoinFirst(parts);
      }
    }
  }

  lemma JoinFirst(parts: seq<string>)
    requires |parts| >= 2
    ensures Join(parts)[|parts[0]|] == Separator
  {
  }

  /** The cases the source's comments and callers rely on. A trailing "/" after the root
      gives one empty name, not the empty list its comment suggests. */
  lemma PathExamples()
    ensures LastSegment("/repo") == "repo"
    ensures LastSegment("/repo/") == ""
    ensures RelativePath("/repo", "/repo/a/b.ts") == ["a", "b.ts"]
    ensures RelativePath("/repo", "/repo") == []
    ensures RelativePath("/repo", "/repo/") == [""]
  {
    LastSegmentIsBaseName("/repo");
    LastSegmentIsBaseName("/repo/");
    var segments := ["a", "b.ts"];
    assert Join(segments) == "a/b.ts";
    assert "/repo" + [Separator] + Join(segments) == "/repo/a/b.ts";
    RelativePathOfNestedFile("/repo", segments);
    RelativePathOfRoot("/repo");
    RelativePathOfNestedFile("/repo", [""]);
    assert "/repo" + [Separator] + Join([""]) == "/repo/";
  }
}
