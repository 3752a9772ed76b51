/**
  The site-path function of the gallery's utilities (`getPathFn`): it fixes a site root
  and maps a document path to a root-relative link. Links are modelled with
  `skipEncode` set: percent-encoding is not part of this model.
 */
module SitePath {
  import opened Wrappers
  import opened PosixPath

  const WinSep: char := '\\'

  /** Every Windows separator replaced by `/`, everything else kept. */
  function ReplaceBackslashes(s: string): (r: string)
    ensures |r| == |s|
    ensures WinSep !in r
    ensures forall i :: 0 <= i < |s| && s[i] != WinSep ==> r[i] == s[i]
    ensures forall i :: 0 <= i < |s| && s[i] == WinSep ==> r[i] == Sep
  {
    if s == [] then []
    else [if s[0] == WinSep then Sep else s[0]] + ReplaceBackslashes(s[1..])
  }

  lemma ReplaceBackslashesIdentity(s: string)
    requires WinSep !in s
    ensures ReplaceBackslashes(s) == s
  {
  }

  lemma ReplaceBackslashesOmits(s: string, c: char)
    requires c !in s && c != Sep
    ensures c !in ReplaceBackslashes(s)
  {
    var r := ReplaceBackslashes(s);
    forall i | 0 <= i < |r|
      ensures r[i] != c
    {
      if s[i] != WinSep {
        assert s[i] in s;
      }
    }
  }

  /**
    The site root `getPathFn` captures: `/` when absent, backslashes turned into
    separators, then a trailing and a leading separator added when missing.
   */
  function NormalizeRoot(rootDir: Option<string>): (r: string)
    ensures WinSep !in r
    ensures IsAbsolute(r) && HasTrailingSep(r)
    ensures rootDir.None? ==> r == "/"
  {
    var r1 := ReplaceBackslashes(rootDir.GetOr("/"));
    var r2 := if HasTrailingSep(r1) then r1 else Join([r1, "/"]);
    assert HasTrailingSep(r2) && WinSep !in r2 by {
      if !HasTrailingSep(r1) { AppendSlash(r1); }
    }
    var r3 := if IsAbsolute(r2) then r2 else Join(["/", r2]);
    assert IsAbsolute(r3) && HasTrailingSep(r3) && WinSep !in r3 by {
      if !IsAbsolute(r2) { PrependSlash(r2); }
    }
    r3
  }

  lemma AppendSlash(r1: string)
    requires WinSep !in r1
    ensures var r2 := Join([r1, "/"]);
            HasTrailingSep(r2) && WinSep !in r2
  {
    JoinOmits([r1, "/"], WinSep);
    NonEmptyPair(r1, "/");
    if r1 != "" {
      assert JoinWithSep([r1, "/"]) == r1 + [Sep] + "/";
    }
  }

  lemma PrependSlash(r2: string)
    requires WinSep !in r2 && HasTrailingSep(r2)
    ensures var r3 := Join(["/", r2]);
            IsAbsolute(r3) && HasTrailingSep(r3) && WinSep !in r3
  {
    JoinOmits(["/", r2], WinSep);
    NonEmptyPair("/", r2);
    assert JoinWithSep(["/", r2]) == "/" + [Sep] + r2;
  }

  /** Normalising an already normalised root changes nothing. */
  lemma NormalizeRootIdempotent(rootDir: Option<string>)
    ensures NormalizeRoot(Some(NormalizeRoot(rootDir))) == NormalizeRoot(rootDir)
  {
    ReplaceBackslashesIdentity(NormalizeRoot(rootDir));
  }

  // ---------------------------------------------------------------------------
  // Query strings and fragments

  predicate IsMark(c: char) {
    c == '?' || c == '#'
  }

  /** The first index at or after `from` holding `?` or `#`, or `|s|`. */
  function NextMark(s: string, from: nat): (j: nat)
    requires from <= |s|
    ensures from <= j <= |s|
    ensures j < |s| ==> IsMark(s[j])
    ensures forall k :: from <= k < j ==> !IsMark(s[k])
    decreases |s| - from
  {
    if from == |s| || IsMark(s[from]) then from else NextMark(s, from + 1)
  }

  function Concat(pieces: seq<string>): string
  {
    if pieces == [] then "" else pieces[0] + Concat(pieces[1..])
  }

  /**
    `s.split(/(?=[?#])/)`: `s` cut before every `?` and `#`, except one at index 0 (the
    split never yields an empty leading piece).
   */
  function SplitBeforeMarks(s: string): (pieces: seq<string>)
    ensures |pieces| >= 1
    ensures Concat(pieces) == s
    ensures forall i :: 1 <= i < |pieces| ==> |pieces[i]| >= 1 && IsMark(pieces[i][0])
    ensures forall i, k :: 0 <= i < |pieces| && 1 <= k < |pieces[i]| ==> !IsMark(pieces[i][k])
    ensures s != "" ==> pieces[0] != ""
    decreases |s|
  {
    if |s| == 0 then [""]
    else
      var j := NextMark(s, 1);
      if j == |s| then [s]
      else
        var rest := SplitBeforeMarks(s[j..]);
        assert s == s[..j] + s[j..];
        [s[..j]] + rest
  }

  /** Text followed by a query or fragment splits into the text and the query's own pieces. */
  lemma SplitBeforeMarksAppend(p: string, q: string)
    requires p != ""
    requires forall k :: 1 <= k < |p| ==> !IsMark(p[k])
    requires q == "" || IsMark(q[0])
    ensures SplitBeforeMarks(p + q) == [p] + (if q == "" then [] else SplitBeforeMarks(q))
  {
    var s := p + q;
    var j := NextMark(s, 1);
    if q != "" {
      assert IsMark(s[|p|]);
      assert j == |p|;
      assert s[..j] == p && s[j..] == q;
    } else {
      assert s == p;
    }
  }

  // ---------------------------------------------------------------------------
  // getPath

  predicate IsIndexName(name: string) {
    name == "index.html" || name == "index.htm"
  }

  /**
    The arguments `getPath` passes to `join` after the root: the pieces of the split,
    the first one with backslashes replaced and an index document collapsed to its
    directory.
   */
  function PathArgs(docPath: string): (args: seq<string>)
    ensures |args| == |SplitBeforeMarks(docPath)|
    ensures args[1..] == SplitBeforeMarks(docPath)[1..]
    ensures WinSep !in args[0]
  {
    var pieces := SplitBeforeMarks(docPath);
    [CollapseIndex(ReplaceBackslashes(pieces[0]))] + pieces[1..]
  }

  /** An `index.html`/`index.htm` basename replaced by the directory with a trailing separator. */
  function CollapseIndex(first: string): (r: string)
    ensures WinSep !in first ==> WinSep !in r
    // an index document becomes its directory: the same segments, marked as a directory
    ensures IsIndexName(Basename(first)) ==>
              HasTrailingSep(r) && Segments(r) == Segments(Dirname(first))
    ensures !IsIndexName(Basename(first)) ==> r == first
  {
    if IsIndexName(Basename(first)) then
      var collapsed := Join([Dirname(first), "/"]);
      DirectoryOf(Dirname(first));
      assert WinSep !in first ==> WinSep !in collapsed by {
        if WinSep !in first {
          DirnameOmits(first, WinSep);
          JoinOmits([Dirname(first), "/"], WinSep);
        }
      }
      collapsed
    else first
  }

  /** Joining a directory with `/` keeps its segments and marks it as a directory. */
  lemma DirectoryOf(d: string)
    ensures var a := Join([d, "/"]);
            HasTrailingSep(a) && Segments(a) == Segments(d)
  {
    NonEmptyPair(d, "/");
    if d == "" {
      assert Join([d, "/"]) == Normalize("/");
      assert Segments("/") == Segments([] + [Sep] + []);
      SegmentsConcat([], []);
    } else {
      assert JoinWithSep([d, "/"]) == d + [Sep] + "/";
      NormalizeSegments(d + [Sep] + "/");
      SegmentsConcat(d, "/");
      assert "/" == [] + [Sep] + [];
      SegmentsConcat([], []);
    }
  }

  lemma DirnameOmits(path: string, c: char)
    requires c !in path && c != Sep && c != '.'
    ensures c !in Dirname(path)
  {
    if path != "" {
      var end := DirnameEnd(path, |path| - 1, true);
      if end != -1 && !(path[0] == Sep && end == 1) {
        assert Dirname(path) == path[..end];
        forall i | 0 <= i < end
          ensures path[..end][i] != c
        {
          assert path[i] in path;
        }
      }
    }
  }

  /** The link `getPathFn(rootDir)` returns for `docPath`, without percent-encoding. */
  function GetPath(rootDir: Option<string>, docPath: string): (link: string)
    ensures IsAbsolute(link)
  {
    JoinRootFirst(NormalizeRoot(rootDir), PathArgs(docPath));
    Join([NormalizeRoot(rootDir)] + PathArgs(docPath))
  }

  /** Joining after an absolute root yields an absolute path naming the root's segments first. */
  lemma JoinRootFirst(root: string, rest: seq<string>)
    requires IsAbsolute(root)
    ensures var j := Join([root] + rest);
            IsAbsolute(j) && Segments(j) == Segments(root) + Segments(JoinWithSep(NonEmpty(rest)))
    ensures NonEmpty(rest) == [] ==> Join([root] + rest) == Normalize(root)
    ensures NonEmpty(rest) != [] ==>
              Join([root] + rest) == Normalize(root + [Sep] + JoinWithSep(NonEmpty(rest)))
  {
    var args := [root] + rest;
    assert args[1..] == rest;
    assert NonEmpty(args) == [root] + NonEmpty(rest);
    var ne := NonEmpty(rest);
    if ne == [] {
      assert JoinWithSep([root]) == root;
      NormalizeSegments(root);
      assert Segments("") == [];
    } else {
      assert JoinWithSep([root] + ne) == root + [Sep] + JoinWithSep(ne) by {
        assert ([root] + ne)[1..] == ne;
      }
      NormalizeSegments(root + [Sep] + JoinWithSep(ne));
      SegmentsConcat(root, JoinWithSep(ne));
    }
  }

  /** The link for the empty document path is the normalised root. */
  lemma GetPathEmpty(rootDir: Option<string>)
    ensures GetPath(rootDir, "") == Normalize(NormalizeRoot(rootDir))
    ensures Normalize(NormalizeRoot(rootDir)) == NormalizeRoot(rootDir) ==>
              GetPath(rootDir, "") == NormalizeRoot(rootDir)
  {
    var root := NormalizeRoot(rootDir);
    assert Basename("") == "";
    assert PathArgs("") == [""];
    JoinRootFirst(root, [""]);
    assert NonEmpty([""]) == [];
  }

  /**
    Backslash replacement and index collapsing touch only the text before the first
    `?` or `#`; the query and fragment pieces reach `join` unchanged.
   */
  lemma QueryUntouched(p: string, q: string)
    requires p != ""
    requires forall k :: 1 <= k < |p| ==> !IsMark(p[k])
    requires q == "" || IsMark(q[0])
    ensures PathArgs(p + q) == [PathArgs(p)[0]] + (if q == "" then [] else SplitBeforeMarks(q))
  {
    SplitBeforeMarksAppend(p, q);
    SplitBeforeMarksAppend(p, "");
    assert p + "" == p;
  }

  /** Joining after the root depends only on the first argument's segments and trailing separator. */
  lemma JoinAfterRootByComponents(root: string, a1: string, a2: string, rest: seq<string>)
    requires IsAbsolute(root)
    requires a1 != "" && a2 != ""
    requires HasTrailingSep(a1) == HasTrailingSep(a2)
    requires Segments(a1) == Segments(a2)
    ensures Join([root, a1] + rest) == Join([root, a2] + rest)
  {
    var ne := NonEmpty(rest);
    JoinRootChild(root, a1, rest);
    JoinRootChild(root, a2, rest);
    TailJoinByComponents(a1, a2, ne);
    ChildNormalizeByComponents(root, JoinWithSep([a1] + ne), JoinWithSep([a2] + ne));
  }

  lemma JoinRootChild(root: string, a: string, rest: seq<string>)
    requires IsAbsolute(root) && a != ""
    ensures Join([root, a] + rest) == Normalize(root + [Sep] + JoinWithSep([a] + NonEmpty(rest)))
  {
    NonEmptyCons(a, rest);
    ConsPair(root, a, rest);
    JoinRootFirst(root, [a] + rest);
  }

  lemma ConsPair<T>(a: T, b: T, rest: seq<T>)
    ensures [a] + ([b] + rest) == [a, b] + rest
  {
  }

  lemma NonEmptyCons(a: string, rest: seq<string>)
    requires a != ""
    ensures NonEmpty([a] + rest) == [a] + NonEmpty(rest)
  {
    assert ([a] + rest)[1..] == rest;
  }

  /** Joining the same tail after two first pieces keeps their shared components. */
  lemma TailJoinByComponents(a1: string, a2: string, ne: seq<string>)
    requires a1 != "" && a2 != ""
    requires HasTrailingSep(a1) == HasTrailingSep(a2)
    requires Segments(a1) == Segments(a2)
    requires forall i :: 0 <= i < |ne| ==> ne[i] != ""
    ensures var j1, j2 := JoinWithSep([a1] + ne), JoinWithSep([a2] + ne);
            j1 != "" && j2 != "" && HasTrailingSep(j1) == HasTrailingSep(j2) && Segments(j1) == Segments(j2)
  {
    var j1 := JoinWithSep([a1] + ne);
    var j2 := JoinWithSep([a2] + ne);
    if ne == [] {
      assert j1 == a1 && j2 == a2;
    } else {
      assert ([a1] + ne)[1..] == ne && ([a2] + ne)[1..] == ne;
      JoinWithSepNonEmpty(ne);
      SameTailByComponents(a1, a2, JoinWithSep(ne));
    }
  }

  lemma SameTailByComponents(a1: string, a2: string, tail: string)
    requires tail != ""
    requires Segments(a1) == Segments(a2)
    ensures var j1, j2 := a1 + [Sep] + tail, a2 + [Sep] + tail;
            j1 != "" && j2 != "" && HasTrailingSep(j1) == HasTrailingSep(j2) && Segments(j1) == Segments(j2)
  {
    var j1, j2 := a1 + [Sep] + tail, a2 + [Sep] + tail;
    assert j1[|j1| - 1] == tail[|tail| - 1] && j2[|j2| - 1] == tail[|tail| - 1];
    SegmentsConcat(a1, tail);
    SegmentsConcat(a2, tail);
  }

  lemma ChildNormalizeByComponents(root: string, j1: string, j2: string)
    requires IsAbsolute(root)
    requires j1 != "" && j2 != ""
    requires HasTrailingSep(j1) == HasTrailingSep(j2)
    requires Segments(j1) == Segments(j2)
    ensures Normalize(root + [Sep] + j1) == Normalize(root + [Sep] + j2)
  {
    var x, y := root + [Sep] + j1, root + [Sep] + j2;
    assert x[|x| - 1] == j1[|j1| - 1] && y[|y| - 1] == j2[|j2| - 1];
    assert x[0] == root[0] && y[0] == root[0];
    SegmentsConcat(root, j1);
    SegmentsConcat(root, j2);
    NormalizeByComponents(x, y);
  }

  /** The first argument `getPath` builds for a plain path (no backslash, no query). */
  lemma PlainPathArgs(p: string, query: string)
    requires p != "" && WinSep !in p
    requires forall k :: 1 <= k < |p| ==> !IsMark(p[k])
    requires query == "" || IsMark(query[0])
    ensures PathArgs(p + query) ==
              [CollapseIndex(p)] + (if query == "" then [] else SplitBeforeMarks(query))
  {
    QueryUntouched(p, query);
    SplitBeforeMarksAppend(p, "");
    assert p + "" == p;
    ReplaceBackslashesIdentity(p);
  }

  /** Collapsing `dir/name` yields a path naming the segments of `dir`, with a trailing separator. */
  lemma CollapsedDir(dir: string, name: string)
    requires name != "" && Sep !in name
    ensures var a := Join([Dirname(dir + [Sep] + name), "/"]);
            HasTrailingSep(a) && Segments(a) == Segments(dir)
  {
    DirectoryOf(Dirname(dir + [Sep] + name));
    DirnameChild(dir, name);
  }

  /** The link for a plain path followed by an optional query or fragment. */
  lemma GetPathPlain(rootDir: Option<string>, p: string, query: string)
    requires p != "" && WinSep !in p
    requires forall k :: 1 <= k < |p| ==> !IsMark(p[k])
    requires query == "" || IsMark(query[0])
    ensures GetPath(rootDir, p + query) ==
              Join([NormalizeRoot(rootDir), CollapseIndex(p)]
                   + (if query == "" then [] else SplitBeforeMarks(query)))
  {
    PlainPathArgs(p, query);
    var x := CollapseIndex(p);
    var rest := if query == "" then [] else SplitBeforeMarks(query);
    ConsPair(NormalizeRoot(rootDir), x, rest);
  }

  lemma IndexNamePlain(name: string)
    requires IsIndexName(name)
    ensures name != "" && Sep !in name && WinSep !in name
    ensures forall k :: 0 <= k < |name| ==> !IsMark(name[k])
  {
    var s := "index.htm";
    assert forall k :: 0 <= k < |s| ==> s[k] in "index.htm";
    assert "index.html" == s + "l";
  }

  lemma ChildHasNoMarks(dir: string, name: string)
    requires forall k :: 0 <= k < |dir| ==> !IsMark(dir[k])
    requires forall k :: 0 <= k < |name| ==> !IsMark(name[k])
    ensures forall k :: 0 <= k < |dir + [Sep] + name| ==> !IsMark((dir + [Sep] + name)[k])
  {
  }

  /** Two plain paths whose collapsed forms agree on segments and trailing separator link alike. */
  lemma SameLinkByComponents(rootDir: Option<string>, p1: string, p2: string, query: string)
    requires p1 != "" && WinSep !in p1 && forall k :: 1 <= k < |p1| ==> !IsMark(p1[k])
    requires p2 != "" && WinSep !in p2 && forall k :: 1 <= k < |p2| ==> !IsMark(p2[k])
    requires query == "" || IsMark(query[0])
    requires CollapseIndex(p1) != "" && CollapseIndex(p2) != ""
    requires HasTrailingSep(CollapseIndex(p1)) == HasTrailingSep(CollapseIndex(p2))
    requires Segments(CollapseIndex(p1)) == Segments(CollapseIndex(p2))
    ensures GetPath(rootDir, p1 + query) == GetPath(rootDir, p2 + query)
  {
    GetPathPlain(rootDir, p1, query);
    GetPathPlain(rootDir, p2, query);
    var rest := if query == "" then [] else SplitBeforeMarks(query);
    JoinAfterRootByComponents(NormalizeRoot(rootDir), CollapseIndex(p1), CollapseIndex(p2), rest);
  }

  /**
    An index document maps to the same link as its directory with a trailing separator,
    whatever query or fragment follows: `getPath("a/index.html") == getPath("a/")`.
   */
  lemma IndexCollapse(rootDir: Option<string>, dir: string, name: string, query: string)
    requires IsIndexName(name)
    requires WinSep !in dir
    requires forall k :: 0 <= k < |dir| ==> !IsMark(dir[k])
    requires !IsIndexName(Basename(dir))
    requires query == "" || IsMark(query[0])
    ensures GetPath(rootDir, dir + [Sep] + name + query) == GetPath(rootDir, dir + [Sep] + query)
  {
    IndexChildParts(dir, name);
    SameLinkByComponents(rootDir, dir + [Sep] + name, dir + [Sep], query);
  }

  /** The two paths of `IndexCollapse` meet every condition of `SameLinkByComponents`. */
  lemma IndexChildParts(dir: string, name: string)
    requires IsIndexName(name)
    requires WinSep !in dir
    requires forall k :: 0 <= k < |dir| ==> !IsMark(dir[k])
    requires !IsIndexName(Basename(dir))
    ensures var p1 := dir + [Sep] + name;
            p1 != "" && WinSep !in p1 && (forall k :: 1 <= k < |p1| ==> !IsMark(p1[k]))
    ensures var p2 := dir + [Sep];
            p2 != "" && WinSep !in p2 && (forall k :: 1 <= k < |p2| ==> !IsMark(p2[k]))
    ensures var c1, c2 := CollapseIndex(dir + [Sep] + name), CollapseIndex(dir + [Sep]);
            c1 != "" && c2 != "" && HasTrailingSep(c1) == HasTrailingSep(c2) && Segments(c1) == Segments(c2)
  {
    var p1 := dir + [Sep] + name;
    var p2 := dir + [Sep];
    IndexNamePlain(name);
    ChildHasNoMarks(dir, name);
    ChildHasNoMarks(dir, []);
    assert p2 == dir + [Sep] + [];
    BasenameChild(dir, name);
    BasenameTrailingSep(dir);
    assert CollapseIndex(p1) == Join([Dirname(p1), "/"]);
    assert CollapseIndex(p2) == p2;
    CollapsedDir(dir, name);
    SegmentsConcat(dir, []);
  }

  /** None of the pieces names a `..` segment. */
  predicate NoParentSegments(pieces: seq<string>) {
    forall i :: 0 <= i < |pieces| ==> NoParentSegment(pieces[i])
  }

  predicate NoParentSegment(path: string) {
    ".." !in Segments(path)
  }

  predicate StartsWith(s: string, prefix: string) {
    |prefix| <= |s| && s[..|prefix|] == prefix
  }

  /**
    For a root already in normal form, every link begins with the root; the one exception
    is a document path naming the root itself as `.`, whose link is the root without its
    trailing separator.
   */
  lemma GetPathUnderRoot(rootDir: Option<string>, docPath: string)
    requires Normalize(NormalizeRoot(rootDir)) == NormalizeRoot(rootDir)
    // `path.posix.join` resolves `..`, which can climb out of the root
    requires NoParentSegment(NormalizeRoot(rootDir)) && NoParentSegments(PathArgs(docPath))
    ensures UnderRoot(GetPath(rootDir, docPath), NormalizeRoot(rootDir))
  {
    var root := NormalizeRoot(rootDir);
    var rest := PathArgs(docPath);
    JoinRootFirst(root, rest);
    var ne := NonEmpty(rest);
    if ne != [] {
      assert GetPath(rootDir, docPath) == Normalize(root + [Sep] + JoinWithSep(ne));
      JoinUnderRoot(root, JoinWithSep(ne));
    } else {
      assert GetPath(rootDir, docPath) == root;
      assert root[..|root|] == root;
    }
  }

  /** Normalising a normal absolute directory followed by more path stays under that directory. */
  lemma JoinUnderRoot(root: string, j: string)
    requires IsAbsolute(root) && HasTrailingSep(root) && Normalize(root) == root
    ensures UnderRoot(Normalize(root + [Sep] + j), root)
  {
    var sr := Segments(root);
    SegmentsValid(root);
    SegmentsValid(j);
    SegmentsConcat(root, j);
    var x := root + [Sep] + j;
    assert root == Render(true, sr, true);
    assert Normalize(x) == Render(true, sr + Segments(j), HasTrailingSep(x));
    RenderUnderRoot(sr, Segments(j), HasTrailingSep(x));
  }

  /** The link lies under the root directory, or is the root itself without its trailing `/`. */
  predicate UnderRoot(link: string, root: string) {
    StartsWith(link, root) || link + [Sep] == root
  }

  lemma RenderUnderRoot(sr: seq<string>, sj: seq<string>, trailing: bool)
    requires ValidSegments(sr) && ValidSegments(sj)
    ensures UnderRoot(Render(true, sr + sj, trailing), Render(true, sr, true))
  {
    var root := Render(true, sr, true);
    var r := Render(true, sr + sj, trailing);
    if sr == [] {
      assert root == "/";
      if sj == [] {
        assert r == "/";
      }
    } else if sj == [] {
      assert sr + sj == sr;
    } else {
      JoinWithSepAppend(sr, sj);
      assert r == "/" + JoinWithSep(sr) + [Sep] + JoinWithSep(sj) + (if trailing then "/" else "");
      assert r[..|root|] == root;
    }
  }

}
