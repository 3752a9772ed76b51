/**
  The part of Node's `path.posix` the gallery relies on: `join`, `normalize`,
  `basename` and `dirname`. A path is viewed as its `/`-separated pieces; normalising
  keeps the non-empty pieces other than `.` (the segments), the leading `/` and the
  trailing `/`. Resolution of `..` against the preceding segment is not modelled:
  `..` is kept as an ordinary segment.
 */
module PosixPath {

  const Sep: char := '/'

  /** `s.split("/")`: every piece between separators, empty pieces included. */
  function SplitOnSep(s: string): (pieces: seq<string>)
    ensures |pieces| >= 1
    ensures forall i :: 0 <= i < |pieces| ==> Sep !in pieces[i]
  {
    if s == [] then [""]
    else
      var rest := SplitOnSep(s[1..]);
      if s[0] == Sep then [""] + rest
      else [[s[0]] + rest[0]] + rest[1..]
  }

  /** `pieces.join("/")`. */
  function JoinWithSep(pieces: seq<string>): string
  {
    if |pieces| == 0 then ""
    else if |pieces| == 1 then pieces[0]
    else pieces[0] + [Sep] + JoinWithSep(pieces[1..])
  }

  /** Splitting at the separators and joining with them again gives the path back. */
  lemma {:induction false} JoinSplit(s: string)
    ensures JoinWithSep(SplitOnSep(s)) == s
  {
    if s != [] {
      JoinSplit(s[1..]);
      var rest := SplitOnSep(s[1..]);
      if s[0] == Sep {
        assert s == [Sep] + s[1..];
      } else if |rest| == 1 {
        assert s == [s[0]] + s[1..];
      } else {
        assert rest == [rest[0]] + rest[1..];
        assert s == [s[0]] + s[1..];
      }
    }
  }

  /** The pieces of `a + "/" + b` are the pieces of `a` followed by those of `b`. */
  lemma {:induction false} SplitConcat(a: string, b: string)
    ensures SplitOnSep(a + [Sep] + b) == SplitOnSep(a) + SplitOnSep(b)
  {
    if a == [] {
      assert a + [Sep] + b == [Sep] + b;
      assert ([Sep] + b)[1..] == b;
    } else {
      assert (a + [Sep] + b)[1..] == a[1..] + [Sep] + b;
      SplitConcat(a[1..], b);
    }
  }

  lemma {:induction false} SplitNoSep(s: string)
    requires Sep !in s
    ensures SplitOnSep(s) == [s]
  {
    if s != [] {
      assert Sep !in s[1..];
      SplitNoSep(s[1..]);
      assert s == [s[0]] + s[1..];
    }
  }

  /** Joining separator-free pieces and splitting again gives the pieces back. */
  lemma {:induction false} SplitJoin(pieces: seq<string>)
    requires |pieces| >= 1
    requires forall i :: 0 <= i < |pieces| ==> Sep !in pieces[i]
    ensures SplitOnSep(JoinWithSep(pieces)) == pieces
  {
    if |pieces| == 1 {
      SplitNoSep(pieces[0]);
    } else {
      SplitNoSep(pieces[0]);
      SplitJoin(pieces[1..]);
      SplitConcat(pieces[0], JoinWithSep(pieces[1..]));
    }
  }

  lemma {:induction false} JoinWithSepAppend(a: seq<string>, b: seq<string>)
    requires |a| >= 1 && |b| >= 1
    ensures JoinWithSep(a + b) == JoinWithSep(a) + [Sep] + JoinWithSep(b)
  {
    if |a| == 1 {
      assert (a + b)[1..] == b;
    } else {
      assert (a + b)[1..] == a[1..] + b;
      JoinWithSepAppend(a[1..], b);
    }
  }

  /** A piece that survives normalisation. */
  predicate IsSegment(piece: string) {
    piece != "" && piece != "."
  }

  predicate ValidSegments(segs: seq<string>) {
    forall i :: 0 <= i < |segs| ==> IsSegment(segs[i]) && Sep !in segs[i]
  }

  function KeepSegments(pieces: seq<string>): (segs: seq<string>)
    ensures forall i :: 0 <= i < |segs| ==> IsSegment(segs[i])
    ensures (forall i :: 0 <= i < |pieces| ==> Sep !in pieces[i]) ==> ValidSegments(segs)
  {
    if pieces == [] then []
    else (if IsSegment(pieces[0]) then [pieces[0]] else []) + KeepSegments(pieces[1..])
  }

  lemma {:induction false} KeepSegmentsConcat(a: seq<string>, b: seq<string>)
    ensures KeepSegments(a + b) == KeepSegments(a) + KeepSegments(b)
  {
    if a == [] {
      assert a + b == b;
    } else {
      assert (a + b)[1..] == a[1..] + b;
      KeepSegmentsConcat(a[1..], b);
    }
  }

  lemma {:induction false} KeepValidSegments(segs: seq<string>)
    requires ValidSegments(segs)
    ensures KeepSegments(segs) == segs
  {
    if segs != [] {
      KeepValidSegments(segs[1..]);
    }
  }

  /** The segments of a path: its pieces without the empty ones and without `.`. */
  function Segments(path: string): seq<string>
  {
    KeepSegments(SplitOnSep(path))
  }

  lemma SegmentsValid(path: string)
    ensures ValidSegments(Segments(path))
  {
  }

  lemma SegmentsConcat(a: string, b: string)
    ensures Segments(a + [Sep] + b) == Segments(a) + Segments(b)
  {
    SplitConcat(a, b);
    KeepSegmentsConcat(SplitOnSep(a), SplitOnSep(b));
  }

  predicate IsAbsolute(path: string) {
    |path| > 0 && path[0] == Sep
  }

  predicate HasTrailingSep(path: string) {
    |path| > 0 && path[|path| - 1] == Sep
  }

  /** Assembles a normal path from its three components. */
  function Render(absolute: bool, segs: seq<string>, trailing: bool): string
  {
    if segs == [] then (if absolute then "/" else if trailing then "./" else ".")
    else (if absolute then "/" else "") + JoinWithSep(segs) + (if trailing then "/" else "")
  }

  /** `path.posix.normalize(path)` for paths without `..`. */
  function Normalize(path: string): (r: string)
    ensures r != ""
    ensures IsAbsolute(path) ==> IsAbsolute(r)
    ensures HasTrailingSep(path) ==> HasTrailingSep(r)
  {
    if path == "" then "."
    else Render(IsAbsolute(path), Segments(path), HasTrailingSep(path))
  }

  function NonEmpty(args: seq<string>): (r: seq<string>)
    ensures forall i :: 0 <= i < |r| ==> r[i] != ""
  {
    if args == [] then []
    else (if args[0] == "" then [] else [args[0]]) + NonEmpty(args[1..])
  }

  lemma NonEmptyPair(a: string, b: string)
    ensures NonEmpty([a, b]) == (if a == "" then [] else [a]) + (if b == "" then [] else [b])
  {
    assert [a, b][1..] == [b];
    assert [b][1..] == [];
    assert NonEmpty([b]) == (if b == "" then [] else [b]) + NonEmpty([]);
  }

  /** `path.posix.join(...args)`: the non-empty arguments joined with `/`, then normalised. */
  function Join(args: seq<string>): (r: string)
    ensures r != ""
  {
    var parts := NonEmpty(args);
    if parts == [] then "." else Normalize(JoinWithSep(parts))
  }

  lemma {:induction false} JoinWithSepNonEmpty(pieces: seq<string>)
    requires pieces != [] && forall i :: 0 <= i < |pieces| ==> pieces[i] != ""
    ensures JoinWithSep(pieces) != ""
  {
    if |pieces| > 1 {
      JoinWithSepNonEmpty(pieces[1..]);
    }
  }

  /** The segments of every argument, in argument order. */
  function AllSegments(args: seq<string>): seq<string>
  {
    if args == [] then [] else Segments(args[0]) + AllSegments(args[1..])
  }

  lemma NoSegments()
    ensures Segments("") == [] && Segments(".") == []
  {
    assert KeepSegments([""]) == [] + KeepSegments([]);
    SplitNoSep(".");
    assert KeepSegments(["."]) == [] + KeepSegments([]);
  }

  lemma {:induction false} JoinWithSepSegments(args: seq<string>)
    ensures Segments(JoinWithSep(NonEmpty(args))) == AllSegments(args)
  {
    if args == [] {
      NoSegments();
    } else {
      var a := args[0];
      var rest := NonEmpty(args[1..]);
      JoinWithSepSegments(args[1..]);
      assert AllSegments(args) == Segments(a) + AllSegments(args[1..]);
      if a == "" {
        NoSegments();
        assert NonEmpty(args) == rest;
      } else if rest == [] {
        NoSegments();
        assert NonEmpty(args) == [a];
      } else {
        assert NonEmpty(args) == [a] + rest;
        JoinWithSepAppend([a], rest);
        SegmentsConcat(a, JoinWithSep(rest));
      }
    }
  }

  /** `join` keeps the segments of its arguments, in order, and adds none. */
  lemma JoinSegments(args: seq<string>)
    ensures Segments(Join(args)) == AllSegments(args)
  {
    JoinWithSepSegments(args);
    NoSegments();
    var parts := NonEmpty(args);
    if parts != [] {
      JoinWithSepNonEmpty(parts);
      NormalizeSegments(JoinWithSep(parts));
    }
  }

  lemma SplitJoinRender(absolute: bool, segs: seq<string>, trailing: bool)
    requires ValidSegments(segs)
    ensures Segments(Render(absolute, segs, trailing)) == segs
  {
    var r := Render(absolute, segs, trailing);
    if segs == [] {
      if absolute {
        assert r == [] + [Sep] + [];
        SplitConcat([], []);
      } else if trailing {
        assert r == "." + [Sep] + [];
        SplitConcat(".", []);
        SplitNoSep(".");
      } else {
        SplitNoSep(".");
      }
    } else {
      var front := if absolute then "/" else "";
      var body := JoinWithSep(segs);
      RenderBodySegments(absolute, segs);
      if trailing {
        assert r == (front + body) + [Sep] + [];
        SplitConcat(front + body, []);
        KeepSegmentsConcat(SplitOnSep(front + body), [""]);
      } else {
        assert r == front + body;
      }
    }
  }

  /** The segments of a rendered path before any trailing separator. */
  lemma RenderBodySegments(absolute: bool, segs: seq<string>)
    requires ValidSegments(segs) && segs != []
    ensures Segments((if absolute then "/" else "") + JoinWithSep(segs)) == segs
  {
    var body := JoinWithSep(segs);
    SplitJoin(segs);
    KeepValidSegments(segs);
    if absolute {
      assert "/" + body == [] + [Sep] + body;
      SplitConcat([], body);
      KeepSegmentsConcat([""], SplitOnSep(body));
      assert KeepSegments([""]) == [];
    } else {
      assert "" + body == body;
    }
  }

  /** Normalising does not change which segments a path names. */
  lemma NormalizeSegments(path: string)
    requires path != ""
    ensures Segments(Normalize(path)) == Segments(path)
  {
    SplitJoinRender(IsAbsolute(path), Segments(path), HasTrailingSep(path));
  }

  /** Two non-empty paths normalise alike when they agree on the three components. */
  lemma NormalizeByComponents(x: string, y: string)
    requires x != "" && y != ""
    requires IsAbsolute(x) == IsAbsolute(y)
    requires HasTrailingSep(x) == HasTrailingSep(y)
    requires Segments(x) == Segments(y)
    ensures Normalize(x) == Normalize(y)
  {
  }

  /** A rendered path is already normal. */
  lemma RenderIsNormal(absolute: bool, segs: seq<string>, trailing: bool)
    requires ValidSegments(segs)
    ensures Normalize(Render(absolute, segs, trailing)) == Render(absolute, segs, trailing)
  {
    var n := Render(absolute, segs, trailing);
    SplitJoinRender(absolute, segs, trailing);
    if segs != [] {
      var body := JoinWithSep(segs);
      JoinHead(segs);
      JoinLast(segs);
      RenderComponents(absolute, segs, trailing, body);
    }
  }

  lemma RenderComponents(absolute: bool, segs: seq<string>, trailing: bool, body: string)
    requires segs != [] && body == JoinWithSep(segs)
    requires |body| > 0 && body[0] != Sep && body[|body| - 1] != Sep
    ensures IsAbsolute(Render(absolute, segs, trailing)) == absolute
    ensures HasTrailingSep(Render(absolute, segs, trailing)) == trailing
  {
    var n := Render(absolute, segs, trailing);
    if absolute {
      assert n[0] == Sep;
    } else {
      assert n[0] == body[0];
    }
    if trailing {
      assert n[|n| - 1] == Sep;
    } else {
      assert n[|n| - 1] == body[|body| - 1];
    }
  }

  /** Normalising twice is normalising once. */
  lemma NormalizeIdempotent(path: string)
    ensures Normalize(Normalize(path)) == Normalize(path)
  {
    if path != "" {
      var n := Render(IsAbsolute(path), Segments(path), HasTrailingSep(path));
      assert Normalize(path) == n;
      SegmentsValid(path);
      RenderIsNormal(IsAbsolute(path), Segments(path), HasTrailingSep(path));
      assert Normalize(n) == n;
    } else {
      SplitNoSep(".");
    }
  }

  lemma {:induction false} JoinHead(segs: seq<string>)
    requires segs != [] && ValidSegments(segs)
    ensures |JoinWithSep(segs)| > 0 && JoinWithSep(segs)[0] == segs[0][0]
    ensures JoinWithSep(segs)[0] != Sep
  {
    assert segs[0][0] in segs[0];
  }

  lemma {:induction false} JoinLast(segs: seq<string>)
    requires segs != [] && ValidSegments(segs)
    ensures |JoinWithSep(segs)| > 0 && JoinWithSep(segs)[|JoinWithSep(segs)| - 1] != Sep
  {
    if |segs| > 1 {
      JoinLast(segs[1..]);
    } else {
      var s := segs[0];
      assert s[|s| - 1] in s;
    }
  }

  // ---------------------------------------------------------------------------
  // Characters a path operation can introduce.

  lemma {:induction false} SplitOmits(s: string, c: char)
    requires c !in s
    ensures forall i :: 0 <= i < |SplitOnSep(s)| ==> c !in SplitOnSep(s)[i]
  {
    if s != [] {
      assert c !in s[1..];
      SplitOmits(s[1..], c);
    }
  }

  lemma {:induction false} KeepOmits(pieces: seq<string>, c: char)
    requires forall i :: 0 <= i < |pieces| ==> c !in pieces[i]
    ensures forall i :: 0 <= i < |KeepSegments(pieces)| ==> c !in KeepSegments(pieces)[i]
  {
    if pieces != [] {
      KeepOmits(pieces[1..], c);
    }
  }

  lemma {:induction false} JoinWithSepOmits(pieces: seq<string>, c: char)
    requires c != Sep
    requires forall i :: 0 <= i < |pieces| ==> c !in pieces[i]
    ensures c !in JoinWithSep(pieces)
  {
    if |pieces| > 1 {
      JoinWithSepOmits(pieces[1..], c);
    }
  }

  /** Normalising only ever adds separators and dots. */
  lemma NormalizeOmits(path: string, c: char)
    requires c !in path && c != Sep && c != '.'
    ensures c !in Normalize(path)
  {
    SplitOmits(path, c);
    KeepOmits(SplitOnSep(path), c);
    JoinWithSepOmits(Segments(path), c);
  }

  lemma {:induction false} NonEmptyOmits(args: seq<string>, c: char)
    requires forall i :: 0 <= i < |args| ==> c !in args[i]
    ensures forall i :: 0 <= i < |NonEmpty(args)| ==> c !in NonEmpty(args)[i]
  {
    if args != [] {
      NonEmptyOmits(args[1..], c);
    }
  }

  /** Joining only ever adds separators and dots. */
  lemma JoinOmits(args: seq<string>, c: char)
    requires forall i :: 0 <= i < |args| ==> c !in args[i]
    requires c != Sep && c != '.'
    ensures c !in Join(args)
  {
    NonEmptyOmits(args, c);
    if NonEmpty(args) != [] {
      JoinWithSepOmits(NonEmpty(args), c);
      NormalizeOmits(JoinWithSep(NonEmpty(args)), c);
    }
  }

  // ---------------------------------------------------------------------------
  // basename and dirname

  /** The run of non-separator characters at the end of `path`. */
  function TrailingName(path: string): (name: string)
    ensures Sep !in name
  {
    if path == [] || path[|path| - 1] == Sep then ""
    else TrailingName(path[..|path| - 1]) + [path[|path| - 1]]
  }

  /** `path.posix.basename(path)`: the last segment, ignoring trailing separators. */
  function Basename(path: string): (name: string)
    ensures Sep !in name
  {
    if path == [] then ""
    else if path[|path| - 1] == Sep then Basename(path[..|path| - 1])
    else TrailingName(path)
  }

  /**
    The scan of `path.posix.dirname`: walking left from index `i` down to 1, the index of
    the first separator met after a non-separator character, or -1.
   */
  function DirnameEnd(path: string, i: int, matchedSlash: bool): (end: int)
    requires i < |path|
    ensures end == -1 || 1 <= end <= i
    decreases i
  {
    if i < 1 then -1
    else if path[i] == Sep then (if !matchedSlash then i else DirnameEnd(path, i - 1, true))
    else DirnameEnd(path, i - 1, false)
  }

  /** `path.posix.dirname(path)`. */
  function Dirname(path: string): (dir: string)
    ensures dir != ""
  {
    if path == "" then "."
    else
      var end := DirnameEnd(path, |path| - 1, true);
      if end == -1 then (if path[0] == Sep then "/" else ".")
      else if path[0] == Sep && end == 1 then "//"
      else path[..end]
  }

  lemma {:induction false} TrailingNameChild(d: string, name: string)
    requires Sep !in name
    ensures TrailingName(d + [Sep] + name) == name
    decreases |name|
  {
    var p := d + [Sep] + name;
    if name != [] {
      assert p[..|p| - 1] == d + [Sep] + name[..|name| - 1];
      assert name[|name| - 1] in name;
      TrailingNameChild(d, name[..|name| - 1]);
      assert name == name[..|name| - 1] + [name[|name| - 1]];
    }
  }

  /** The basename of `d/name` is `name`. */
  lemma BasenameChild(d: string, name: string)
    requires name != "" && Sep !in name
    ensures Basename(d + [Sep] + name) == name
  {
    assert name[|name| - 1] in name;
    TrailingNameChild(d, name);
  }

  /** A trailing separator does not change the basename. */
  lemma BasenameTrailingSep(d: string)
    ensures Basename(d + [Sep]) == Basename(d)
  {
    assert (d + [Sep])[..|d|] == d;
  }

  lemma {:induction false} DirnameScan(path: string, k: nat, i: int, matchedSlash: bool)
    requires k < i < |path|
    requires path[k] == Sep
    requires forall j :: k < j <= i ==> path[j] != Sep
    ensures DirnameEnd(path, i, matchedSlash) == if k >= 1 then k else -1
    decreases i
  {
    if i - 1 > k {
      DirnameScan(path, k, i - 1, false);
    }
  }

  lemma {:induction false} DirnameNoSep(path: string, i: int, matchedSlash: bool)
    requires i < |path|
    requires forall j :: 1 <= j <= i ==> path[j] != Sep
    ensures DirnameEnd(path, i, matchedSlash) == -1
    decreases i
  {
    if i >= 1 {
      DirnameNoSep(path, i - 1, false);
    }
  }

  /** A bare name lives in the current directory. */
  lemma DirnameOfName(name: string)
    requires name != "" && Sep !in name
    ensures Dirname(name) == "."
  {
    DirnameNoSep(name, |name| - 1, true);
    assert name[0] in name;
  }

  /** The directory of `d/name` names the same segments as `d`. */
  lemma DirnameChild(d: string, name: string)
    requires name != "" && Sep !in name
    ensures Segments(Dirname(d + [Sep] + name)) == Segments(d)
  {
    var p := d + [Sep] + name;
    forall j | |d| < j <= |p| - 1
      ensures p[j] != Sep
    {
      assert p[j] == name[j - |d| - 1];
    }
    DirnameScan(p, |d|, |p| - 1, true);
    if d == "" {
      assert Dirname(p) == [] + [Sep] + [];
      SegmentsConcat([], []);
    } else if d == "/" {
      assert Dirname(p) == [Sep] + [Sep] + [];
      SegmentsConcat([Sep], []);
      assert [Sep] == [] + [Sep] + [];
      SegmentsConcat([], []);
    } else {
      assert Dirname(p) == p[..|d|] == d;
    }
  }
}
