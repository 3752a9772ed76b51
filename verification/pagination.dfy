/**
  Splitting the timeline into index pages (`paginate`) and naming the page files
  (`getPageFileName`). The three generations share the loop; the root script writes the
  file-name test as a truthiness check.
 */
module Pagination {
  import opened Wrappers
  import opened Decimal

  function Flatten<T>(pages: seq<seq<T>>): seq<T>
  {
    if pages == [] then [] else pages[0] + Flatten(pages[1..])
  }

  lemma {:induction false} FlattenAppend<T>(a: seq<seq<T>>, b: seq<seq<T>>)
    ensures Flatten(a + b) == Flatten(a) + Flatten(b)
  {
    if a == [] {
      assert a + b == b;
    } else {
      assert (a + b)[1..] == a[1..] + b;
      FlattenAppend(a[1..], b);
    }
  }

  /**
    `perPage || albums.length`: an absent or zero setting means one page for everything.
    A negative setting is kept, and the loop's length test then never succeeds.
   */
  function PageSize(perPage: Option<int>, n: nat): (p: int)
    ensures p == 0 ==> n == 0
  {
    if perPage.None? || perPage.value == 0 then n else perPage.value
  }

  /**
    The pages the loop produces for page size `p`, as a reference definition: chunks of
    `p` with the remainder last, or one page when `p` does not cut the input.
   */
  function Chunks<T>(s: seq<T>, p: int): (pages: seq<seq<T>>)
    ensures |pages| >= 1
    decreases |s|
  {
    if p <= 0 || |s| <= p then [s] else [s[..p]] + Chunks(s[p..], p)
  }

  /** The pages hold the input, in order: concatenated they give it back. */
  lemma {:induction false} ChunksFlatten<T>(s: seq<T>, p: int)
    ensures Flatten(Chunks(s, p)) == s
    decreases |s|
  {
    if p <= 0 || |s| <= p {
      assert Flatten([s]) == s + Flatten([s][1..]);
    } else {
      var rest := Chunks(s[p..], p);
      ChunksFlatten(s[p..], p);
      assert ([s[..p]] + rest)[1..] == rest;
      assert s == s[..p] + s[p..];
    }
  }

  /**
    Every page but the last is full, the last holds between 1 and `p` albums, and a size
    that does not cut the input leaves it on one page.
   */
  lemma {:induction false} ChunksShape<T>(s: seq<T>, p: int)
    ensures var pages := Chunks(s, p);
            (p > 0 ==> forall i :: 0 <= i < |pages| - 1 ==> |pages[i]| == p)
            && (p > 0 && s != [] ==> 1 <= |pages[|pages| - 1]| <= p)
            && ((p <= 0 || |s| <= p) ==> pages == [s])
    decreases |s|
  {
    if p > 0 && |s| > p {
      var rest := Chunks(s[p..], p);
      ChunksShape(s[p..], p);
      var pages := Chunks(s, p);
      assert pages == [s[..p]] + rest;
      assert forall i :: 1 <= i < |pages| ==> pages[i] == rest[i - 1];
    }
  }

  /**
    With a positive page size the number of pages is `max(1, ceil(n / p))`: one page for
    no albums, otherwise the least count whose pages hold all `n`.
   */
  lemma {:induction false} ChunksCount<T>(s: seq<T>, p: int)
    requires p > 0
    ensures s == [] ==> |Chunks(s, p)| == 1
    ensures s != [] ==> (|Chunks(s, p)| - 1) * p < |s| <= |Chunks(s, p)| * p
    decreases |s|
  {
    if |s| > p {
      var rest := Chunks(s[p..], p);
      ChunksCount(s[p..], p);
      assert Chunks(s, p) == [s[..p]] + rest;
      assert |Chunks(s, p)| == |rest| + 1;
      assert (|rest| + 1) * p == |rest| * p + p;
      assert |rest| * p == (|rest| - 1) * p + p;
    }
  }

  /** One more album either fills up the last page or opens a new one. */
  lemma {:induction false} ChunksSnoc<T>(s: seq<T>, x: T, p: int)
    requires p != 0
    ensures var c := Chunks(s, p);
            Chunks(s + [x], p) == if |c[|c| - 1]| == p then c + [[x]]
                                  else c[..|c| - 1] + [c[|c| - 1] + [x]]
    decreases |s|
  {
    var c := Chunks(s, p);
    if p < 0 || |s| + 1 <= p {
      assert c == [s];
    } else if |s| == p {
      assert c == [s];
      assert (s + [x])[..p] == s;
      assert (s + [x])[p..] == [x];
      assert Chunks(s + [x], p) == [s] + Chunks([x], p);
    } else {
      var rest := Chunks(s[p..], p);
      assert c == [s[..p]] + rest;
      assert (s + [x])[..p] == s[..p];
      assert (s + [x])[p..] == s[p..] + [x];
      assert Chunks(s + [x], p) == [s[..p]] + Chunks(s[p..] + [x], p);
      ChunksSnoc(s[p..], x, p);
    }
  }

  lemma SnocParts<T>(a: seq<T>, x: T, c: seq<T>)
    requires a + [x] == c
    ensures a == c[..|c| - 1] && x == c[|c| - 1]
  {
  }

  /** One turn of the `paginate` loop keeps the pages it has, plus the open one, equal to the chunks so far. */
  lemma PaginateStep<T>(pages: seq<seq<T>>, current: seq<T>, s: seq<T>, x: T, p: int)
    requires p != 0
    requires pages + [current] == Chunks(s, p)
    ensures |current| == p ==> pages + [current] + [[] + [x]] == Chunks(s + [x], p)
    ensures |current| != p ==> pages + [current + [x]] == Chunks(s + [x], p)
  {
    var c := Chunks(s, p);
    ChunksSnoc(s, x, p);
    SnocParts(pages, current, c);
    assert [] + [x] == [x];
  }

  /** `paginate(albums, perPage)`: the loop over the albums, as the source writes it. */
  method Paginate<T>(albums: seq<T>, perPage: Option<int>) returns (pages: seq<seq<T>>)
    ensures pages == Chunks(albums, PageSize(perPage, |albums|))
    ensures Flatten(pages) == albums && |pages| >= 1
  {
    var p := PageSize(perPage, |albums|);
    pages := [];
    var current: seq<T> := [];
    var i := 0;
    while i < |albums|
      invariant 0 <= i <= |albums|
      invariant pages + [current] == Chunks(albums[..i], p)
    {
      PaginateStep(pages, current, albums[..i], albums[i], p);
      assert albums[..i + 1] == albums[..i] + [albums[i]];
      if |current| == p {
        pages := pages + [current];
        current := [];
      }
      current := current + [albums[i]];
      i := i + 1;
    }
    pages := pages + [current];
    assert albums[..|albums|] == albums;
    ChunksFlatten(albums, p);
  }

  /**
    What the `perPage` setting does to the timeline: absent, zero, negative or at least the
    number of albums leaves everything on one page; otherwise the albums are cut into full
    pages of `perPage` with a non-empty remainder last.
   */
  lemma PagesForSetting<T>(albums: seq<T>, perPage: Option<int>)
    ensures var pages := Chunks(albums, PageSize(perPage, |albums|));
            (perPage.None? || perPage.value <= 0 || |albums| <= perPage.value) ==> pages == [albums]
    ensures var pages := Chunks(albums, PageSize(perPage, |albums|));
            perPage.Some? && 0 < perPage.value < |albums| ==>
              |pages| >= 2
              && (forall i :: 0 <= i < |pages| - 1 ==> |pages[i]| == perPage.value)
              && 1 <= |pages[|pages| - 1]| <= perPage.value
  {
    var p := PageSize(perPage, |albums|);
    ChunksShape(albums, p);
    if perPage.Some? && 0 < perPage.value < |albums| {
      assert Chunks(albums, p) == [albums[..p]] + Chunks(albums[p..], p);
    }
  }

  /** Empty input gives exactly one empty page, whatever the setting. */
  lemma NoAlbumsOnePage<T>(albums: seq<T>, perPage: Option<int>)
    requires albums == []
    ensures Chunks(albums, PageSize(perPage, 0)) == [[]]
  {
  }

  /** With pagination off, all albums sit on one page. */
  lemma UnpaginatedOnePage<T>(albums: seq<T>, perPage: Option<int>)
    requires perPage.None? || perPage == Some(0)
    ensures Chunks(albums, PageSize(perPage, |albums|)) == [albums]
  {
  }

  /** `getPageFileName(idx)`: `index.html` for the first page, `index-<idx + 1>.html` after. */
  function PageFileName(idx: nat): (name: string)
    ensures idx == 0 <==> name == "index.html"
    ensures |name| >= 10
    ensures idx > 0 ==> name[..6] == "index-" && name[|name| - 5..] == ".html"
    // the page number `idx + 1` reads back from between the prefix and the suffix
    ensures idx > 0 ==> AllDigits(name[6..|name| - 5]) && ParseDigits(name[6..|name| - 5]) == idx + 1
    // ... written without padding
    ensures idx > 0 ==> name[6] != '0'
  {
    if idx == 0 then "index.html"
    else
      var d := NatToString(idx + 1);
      var name := "index-" + d + ".html";
      assert name[6..|name| - 5] == d;
      ParseNatToString(idx + 1);
      name
  }

  /** Distinct pages are written to distinct files. */
  lemma PageFileNameInjective(i: nat, j: nat)
    ensures PageFileName(i) == PageFileName(j) ==> i == j
  {
    if PageFileName(i) == PageFileName(j) && i > 0 && j > 0 {
      var a := NatToString(i + 1);
      var b := NatToString(j + 1);
      assert |a| == |b|;
      assert a == PageFileName(i)[6..6 + |a|];
      assert b == PageFileName(j)[6..6 + |b|];
      NatToStringInjective(i + 1, j + 1);
    }
  }

  /**
    The root script's `idx ? "index-" + (idx + 1) + ".html" : "index.html"`. A natural
    number is truthy exactly when it is not 0, so it names every page as the later test does.
   */
  function LegacyPageFileName(idx: nat): (name: string)
    ensures name == PageFileName(idx)
  {
    if idx != 0 then "index-" + NatToString(idx + 1) + ".html" else "index.html"
  }
}
