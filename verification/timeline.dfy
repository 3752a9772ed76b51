/**
  Timeline assembly in `build`: loading every album's metadata, rewriting its paths,
  ordering newest first, and the rules the page writers apply (which albums appear,
  which album feeds the Open Graph tags, the page navigation).

  Three generations share the logic: the current one (azgallery/build.js), the srcs one
  and the root script. They differ in how a failed listing is treated, in how image paths
  are rewritten and in the skip rule.
 */
module Timeline {
  import opened Wrappers
  import opened PosixPath
  import opened SitePath
  import opened Store
  import opened Sorting
  import opened Pagination
  import opened OpenGraph

  datatype Generation = Current | Srcs | Root

  /** The settings `build` reads from the site configuration. */
  datatype Settings = Settings(
    galleryDir: string,
    albumDir: string,
    rootDir: Option<string>,
    perPage: Option<int>)

  /**
    The older writers join `rootDir` into every link and take no default for it, so it is
    a plain string there.
   */
  datatype LegacySettings = LegacySettings(galleryDir: string, rootDir: string, perPage: Option<int>)

  /** A loaded album: the parsed record with image paths rewritten, plus its page path. */
  datatype Album = Album(dir: string, created: int, text: Option<string>, images: seq<string>, path: Option<string>)

  function Created(a: Album): int
  {
    a.created
  }

  datatype LoadError = ListingFailed | IndexUnreadable(name: string) | IndexUnparsable(name: string) | ImagesNull(name: string)

  /**
    Reading and parsing `<name>/index.json`. A record whose `images` is null makes
    `images.map` throw, which fails the whole load.
   */
  function LoadRecord(g: Gallery, name: string): (r: Result<Record, LoadError>)
    ensures r.Success? <==> name in g && g[name].index.Parsed? && g[name].index.record.images.Some?
    ensures r.Success? ==> r.value == g[name].index.record
  {
    if name !in g || g[name].index.Missing? then Failure(IndexUnreadable(name))
    else if g[name].index.Unparsable? then Failure(IndexUnparsable(name))
    else if g[name].index.record.images.None? then Failure(ImagesNull(name))
    else Success(g[name].index.record)
  }

  /** `Promise.all` over the listing: every record in listing order, or a failure. */
  function LoadRecords(g: Gallery, names: seq<string>): (r: Result<seq<Record>, LoadError>)
    ensures r.Success? <==> forall i :: 0 <= i < |names| ==> LoadRecord(g, names[i]).Success?
    ensures r.Success? ==> |r.value| == |names|
                           && forall i :: 0 <= i < |names| ==> LoadRecord(g, names[i]) == Success(r.value[i])
  {
    if names == [] then Success([])
    else
      var first := LoadRecord(g, names[0]);
      var rest := LoadRecords(g, names[1..]);
      if first.Failure? then Failure(first.error)
      else if rest.Failure? then
        assert exists i :: 1 <= i < |names| && !LoadRecord(g, names[i]).Success? by {
          var j :| 0 <= j < |names[1..]| && !LoadRecord(g, names[1..][j]).Success?;
          assert names[1..][j] == names[j + 1];
        }
        Failure(rest.error)
      else
        assert forall i :: 1 <= i < |names| ==> names[i] == names[1..][i - 1];
        Success([first.value] + rest.value)
  }

  /** Where an image link points: under the gallery directory, or under `rootDir` as well in the older code. */
  function ImagePath(galleryDir: string, legacyRoot: Option<string>, dir: string, image: string): (p: string)
    // the link names the gallery directory, then the album, then the image ...
    ensures legacyRoot.None? ==> Segments(p) == AllSegments([galleryDir, dir, image])
    ensures legacyRoot.Some? ==> Segments(p) == AllSegments([legacyRoot.value, galleryDir, dir, image])
    // ... and a plain image name is the link's last segment
    ensures IsSegment(image) && Sep !in image && image != ".." ==> Basename(p) == image
  {
    match legacyRoot
    case None =>
      var args := [galleryDir, dir, image];
      assert args == [galleryDir, dir] + [image];
      JoinSegments(args);
      PlainLastIsBasename([galleryDir, dir], image);
      Join(args)
    case Some(root) =>
      var args := [root, galleryDir, dir, image];
      assert args == [root, galleryDir, dir] + [image];
      JoinSegments(args);
      PlainLastIsBasename([root, galleryDir, dir], image);
      Join(args)
  }

  lemma PlainLastIsBasename(args: seq<string>, name: string)
    ensures IsSegment(name) && Sep !in name ==> Basename(Join(args + [name])) == name
  {
    if IsSegment(name) && Sep !in name {
      JoinLastBasename(args, name);
    }
  }

  /** A plain name joined last is the basename of the result. */
  lemma JoinLastBasename(args: seq<string>, name: string)
    requires IsSegment(name) && Sep !in name
    ensures Basename(Join(args + [name])) == name
  {
    var ne := NonEmpty(args);
    NonEmptyAppend(args, name);
    SegmentsOfName(name);
    if ne == [] {
      assert NonEmpty(args + [name]) == [name];
      assert !IsAbsolute(name) && !HasTrailingSep(name);
      assert Join(args + [name]) == Render(false, [] + [name], false);
      RenderBasename(false, [], name);
    } else {
      var base := JoinWithSep(ne);
      JoinWithSepNonEmpty(ne);
      JoinWithSepAppend(ne, [name]);
      assert Join(args + [name]) == Normalize(base + [Sep] + name);
      NormalizeChild(base, name);
      assert !HasTrailingSep(name);
      RenderBasename(IsAbsolute(base), Segments(base), name);
    }
  }

  /** The post-processing `readGalleryAlbums` applies to one parsed record. */
  function ToAlbum(galleryDir: string, legacyRoot: Option<string>, albumDir: Option<string>, r: Record): (a: Album)
    requires r.images.Some?
    ensures a.dir == r.dir && a.created == r.created && a.text == r.text
    ensures |a.images| == |r.images.value|
    ensures forall i :: 0 <= i < |a.images| ==> a.images[i] == ImagePath(galleryDir, legacyRoot, r.dir, r.images.value[i])
    // each link lies in the album's directory under the gallery and ends in the stored file name
    ensures legacyRoot.None? ==> forall i :: 0 <= i < |a.images| ==>
              Segments(a.images[i]) == AllSegments([galleryDir, r.dir, r.images.value[i]])
    ensures forall i :: 0 <= i < |a.images| ==>
              var f := r.images.value[i];
              IsSegment(f) && Sep !in f && f != ".." ==> Basename(a.images[i]) == f
    ensures albumDir.Some? ==> a.path == Some(Join([albumDir.value, r.dir, "/"]))
    ensures albumDir.None? ==> a.path.None?
  {
    var imgs := r.images.value;
    Album(r.dir, r.created, r.text,
          seq(|imgs|, i requires 0 <= i < |imgs| => ImagePath(galleryDir, legacyRoot, r.dir, imgs[i])),
          if albumDir.Some? then Some(Join([albumDir.value, r.dir, "/"])) else None)
  }

  function ToAlbums(galleryDir: string, legacyRoot: Option<string>, albumDir: Option<string>, rs: seq<Record>): (albums: seq<Album>)
    requires forall i :: 0 <= i < |rs| ==> rs[i].images.Some?
    ensures |albums| == |rs|
    ensures forall i :: 0 <= i < |rs| ==> albums[i] == ToAlbum(galleryDir, legacyRoot, albumDir, rs[i])
  {
    seq(|rs|, i requires 0 <= i < |rs| => ToAlbum(galleryDir, legacyRoot, albumDir, rs[i]))
  }

  /**
    The listing `readGalleryAlbums` works on: the root script lets a failed listing fail
    the build; the later ones log it and carry on with no albums.
   */
  function Listing(gen: Generation, listing: Option<seq<string>>): (r: Result<seq<string>, LoadError>)
    ensures listing.Some? ==> r == Success(listing.value)
    ensures listing.None? ==> (r.Failure? <==> gen == Root)
    ensures listing.None? && gen != Root ==> r == Success([])
  {
    match listing
    case Some(names) => Success(names)
    case None => if gen == Root then Failure(ListingFailed) else Success([])
  }

  /** The albums in listing order, before the sort. */
  function LoadUnsorted(gen: Generation, galleryDir: string, legacyRoot: Option<string>, albumDir: Option<string>,
                        g: Gallery, listing: Option<seq<string>>): (r: Result<seq<Album>, LoadError>)
    // the load fails on a failed listing in the root script, or on any unloadable record ...
    ensures r.Success? <==> (listing.Some? || gen != Root)
                            && forall i :: 0 <= i < |listing.GetOr([])| ==> LoadRecord(g, listing.GetOr([])[i]).Success?
    // ... and otherwise yields one rewritten album per listed directory, in listing order
    ensures r.Success? ==>
              |r.value| == |listing.GetOr([])|
              && forall i :: 0 <= i < |r.value| ==>
                   r.value[i] == ToAlbum(galleryDir, legacyRoot, albumDir, LoadRecord(g, listing.GetOr([])[i]).value)
  {
    var names := Listing(gen, listing);
    if names.Failure? then Failure(names.error)
    else
      assert names.value == listing.GetOr([]);
      var records := LoadRecords(g, names.value);
      if records.Failure? then Failure(records.error)
      else Success(ToAlbums(galleryDir, legacyRoot, albumDir, records.value))
  }

  /** `readGalleryAlbums`: load, rewrite, then sort newest first with the engine's stable sort. */
  function ReadGalleryAlbums(gen: Generation, galleryDir: string, legacyRoot: Option<string>, albumDir: Option<string>,
                             g: Gallery, listing: Option<seq<string>>): (r: Result<seq<Album>, LoadError>)
    ensures r.Success? <==> LoadUnsorted(gen, galleryDir, legacyRoot, albumDir, g, listing).Success?
    ensures r.Success? ==> StablySortedFrom(r.value, LoadUnsorted(gen, galleryDir, legacyRoot, albumDir, g, listing).value, Created)
    ensures r.Success? ==> multiset(r.value) == multiset(LoadUnsorted(gen, galleryDir, legacyRoot, albumDir, g, listing).value)
  {
    var unsorted := LoadUnsorted(gen, galleryDir, legacyRoot, albumDir, g, listing);
    if unsorted.Failure? then Failure(unsorted.error)
    else
      SortIsStable(unsorted.value, Created);
      Success(SortNewestFirst(unsorted.value, Created))
  }

  /** The current generation: image paths under `galleryDir`, and an album page path. */
  function LoadCurrent(s: Settings, g: Gallery, listing: Option<seq<string>>): (r: Result<seq<Album>, LoadError>)
    // a failed listing counts as an empty gallery; any unloadable record fails the build
    ensures r.Success? <==> forall i :: 0 <= i < |listing.GetOr([])| ==> LoadRecord(g, listing.GetOr([])[i]).Success?
    ensures r.Success? ==> |r.value| == |listing.GetOr([])| && NewestFirst(r.value, Created)
    // every album links to its own page under `albumDir`
    ensures r.Success? ==> forall a :: a in r.value ==> a.path == Some(Join([s.albumDir, a.dir, "/"]))
  {
    var r := ReadGalleryAlbums(Current, s.galleryDir, None, Some(s.albumDir), g, listing);
    LoadedShape(Current, s.galleryDir, None, Some(s.albumDir), g, listing);
    r
  }

  /** The older generations: root-prefixed image paths, no album pages. */
  function LoadLegacy(gen: Generation, s: LegacySettings, g: Gallery, listing: Option<seq<string>>): (r: Result<seq<Album>, LoadError>)
    requires gen != Current
    ensures r.Success? <==> (listing.Some? || gen == Srcs)
                            && forall i :: 0 <= i < |listing.GetOr([])| ==> LoadRecord(g, listing.GetOr([])[i]).Success?
    ensures r.Success? ==> |r.value| == |listing.GetOr([])| && NewestFirst(r.value, Created)
    ensures r.Success? ==> forall a :: a in r.value ==> a.path.None?
  {
    var r := ReadGalleryAlbums(gen, s.galleryDir, Some(s.rootDir), None, g, listing);
    LoadedShape(gen, s.galleryDir, Some(s.rootDir), None, g, listing);
    r
  }

  /** The sorted timeline has the unsorted load's size, order and album paths. */
  lemma LoadedShape(gen: Generation, galleryDir: string, legacyRoot: Option<string>, albumDir: Option<string>,
                    g: Gallery, listing: Option<seq<string>>)
    ensures var r := ReadGalleryAlbums(gen, galleryDir, legacyRoot, albumDir, g, listing);
            r.Success? ==>
              |r.value| == |listing.GetOr([])| && NewestFirst(r.value, Created)
              && forall a :: a in r.value ==>
                   a.path == (if albumDir.Some? then Some(Join([albumDir.value, a.dir, "/"])) else None)
  {
    var r := ReadGalleryAlbums(gen, galleryDir, legacyRoot, albumDir, g, listing);
    if r.Success? {
      var u := LoadUnsorted(gen, galleryDir, legacyRoot, albumDir, g, listing).value;
      assert |multiset(r.value)| == |multiset(u)|;
      forall a | a in r.value
        ensures a.path == (if albumDir.Some? then Some(Join([albumDir.value, a.dir, "/"])) else None)
      {
        assert a in multiset(u);
        var i :| 0 <= i < |u| && u[i] == a;
      }
    }
  }

  /** Every loaded album keeps its image count and order, each image rewritten under its album. */
  lemma LoadedImagesRewritten(gen: Generation, galleryDir: string, legacyRoot: Option<string>, albumDir: Option<string>,
                              g: Gallery, listing: Option<seq<string>>, name: string)
    requires listing.Some? && name in listing.value
    requires LoadUnsorted(gen, galleryDir, legacyRoot, albumDir, g, listing).Success?
    ensures LoadRecord(g, name).Success?
    ensures var rec := LoadRecord(g, name).value;
            ToAlbum(galleryDir, legacyRoot, albumDir, rec) in ReadGalleryAlbums(gen, galleryDir, legacyRoot, albumDir, g, listing).value
  {
    var names := listing.value;
    var rs := LoadRecords(g, names).value;
    var i :| 0 <= i < |names| && names[i] == name;
    var unsorted := LoadUnsorted(gen, galleryDir, legacyRoot, albumDir, g, listing).value;
    assert unsorted[i] == ToAlbum(galleryDir, legacyRoot, albumDir, rs[i]);
    assert unsorted[i] in multiset(unsorted);
  }

  /** With a failed listing the later generations load no albums instead of failing. */
  lemma ListingFailureLoadsNothing(gen: Generation, galleryDir: string, legacyRoot: Option<string>, albumDir: Option<string>, g: Gallery)
    ensures var r := ReadGalleryAlbums(gen, galleryDir, legacyRoot, albumDir, g, None);
            (gen == Root ==> r == Failure(ListingFailed)) && (gen != Root ==> r == Success([]))
  {
  }

  /** The older generations load alike whenever the listing succeeds; they part only on a failed one. */
  lemma LegacyGenerationsAgree(s: LegacySettings, g: Gallery, names: seq<string>)
    ensures LoadLegacy(Srcs, s, g, Some(names)) == LoadLegacy(Root, s, g, Some(names))
  {
  }

  // ---------------------------------------------------------------------------
  // Which albums the pages show

  /** The current rule: an album with no images and no text is left out. */
  predicate Skipped(a: Album)
  {
    |a.images| == 0 && a.text.None?
  }

  /** The older rule, on the values the writer sees: `images == null && text == null`. */
  predicate LegacySkipRule(images: Option<seq<string>>, text: Option<string>)
  {
    images.None? && text.None?
  }

  predicate Shown(gen: Generation, a: Album)
  {
    if gen == Current then !Skipped(a) else !LegacySkipRule(Some(a.images), a.text)
  }

  /**
    By the time the older writers run, `images` has been through `map`, so it is never null:
    their skip rule never fires, and an album with no images and no text still gets an entry.
   */
  lemma LegacySkipNeverFires(gen: Generation, a: Album)
    requires gen != Current
    ensures Shown(gen, a)
    ensures Skipped(a) ==> !Shown(Current, a)
  {
  }

  /** The albums a page lists, in page order. */
  function ShownAlbums(gen: Generation, albums: seq<Album>): (r: seq<Album>)
    ensures |r| <= |albums|
    ensures forall a :: a in r <==> a in albums && Shown(gen, a)
  {
    if albums == [] then []
    else (if Shown(gen, albums[0]) then [albums[0]] else []) + ShownAlbums(gen, albums[1..])
  }

  /** Every shown album keeps its multiplicity, every other one is dropped. */
  lemma {:induction false} ShownAlbumsCounts(gen: Generation, albums: seq<Album>)
    ensures var r := ShownAlbums(gen, albums);
            forall a :: multiset(r)[a] == if Shown(gen, a) then multiset(albums)[a] else 0
  {
    if albums != [] {
      ShownAlbumsCounts(gen, albums[1..]);
      assert albums == [albums[0]] + albums[1..];
    }
  }

  /** Filtering commutes with concatenation, so the shown albums keep their relative order. */
  lemma {:induction false} ShownAlbumsAppend(gen: Generation, x: seq<Album>, y: seq<Album>)
    ensures ShownAlbums(gen, x + y) == ShownAlbums(gen, x) + ShownAlbums(gen, y)
  {
    if x == [] {
      assert x + y == y;
    } else {
      assert (x + y)[1..] == x[1..] + y;
      ShownAlbumsAppend(gen, x[1..], y);
    }
  }

  /** The skip rule decides each of the three page writers alike: entry, Open Graph tags, album page. */
  lemma SkipRuleEffects(albumDir: string, a: Album)
    ensures Skipped(a) <==> ShownAlbums(Current, [a]) == []
    ensures Skipped(a) <==> OgTags([a]) == []
    ensures Skipped(a) <==> AlbumPageDoc(albumDir, a).None?
  {
    assert [a][1..] == [];
  }

  // ---------------------------------------------------------------------------
  // Open Graph

  function AlbumTags(a: Album): (tags: seq<OgTag>)
    ensures |tags| == |a.images| + (if a.text.Some? then 1 else 0)
    ensures forall i :: 0 <= i < |a.images| ==> tags[i] == OgImage(a.images[i])
    ensures a.text.Some? ==> tags[|tags| - 1] == OgDescription(a.text.value)
  {
    ImageTags(a.images) + (if a.text.Some? then [OgDescription(a.text.value)] else [])
  }

  /**
    The tags lose nothing: a reader of the page head gets back the album's images, in order,
    and its description.
   */
  lemma AlbumTagsDecode(a: Album)
    ensures TagImages(AlbumTags(a)) == a.images
    ensures TagText(AlbumTags(a)) == a.text
  {
    var desc: seq<OgTag> := if a.text.Some? then [OgDescription(a.text.value)] else [];
    TagImagesAppend(ImageTags(a.images), desc);
    ImageTagsDecode(a.images);
    assert TagImages(desc) == [] by {
      if a.text.Some? {
        assert desc[1..] == [];
      }
    }
  }

  /** Album `i` is the first one the skip rule lets through. */
  predicate FirstUnskipped(albums: seq<Album>, i: nat)
  {
    i < |albums| && !Skipped(albums[i]) && forall j :: 0 <= j < i ==> Skipped(albums[j])
  }

  predicate AllSkipped(albums: seq<Album>)
  {
    forall i :: 0 <= i < |albums| ==> Skipped(albums[i])
  }

  /** The loop in `renderPage`: skip empty albums, emit the first other one's tags, stop. */
  function OgTags(albums: seq<Album>): (tags: seq<OgTag>)
    // the page carries no tags exactly when every album on it is skipped ...
    ensures tags == [] <==> AllSkipped(albums)
    // ... and otherwise those of the first album that is not
    ensures tags != [] ==> exists i: nat :: FirstUnskipped(albums, i) && tags == AlbumTags(albums[i])
  {
    if albums == [] then []
    else if Skipped(albums[0]) then
      var tags := OgTags(albums[1..]);
      SkipFirst(albums, tags);
      tags
    else
      assert FirstUnskipped(albums, 0);
      AlbumTags(albums[0])
  }

  /** Skipping a leading skipped album shifts the first unskipped one by one. */
  lemma SkipFirst(albums: seq<Album>, tags: seq<OgTag>)
    requires albums != [] && Skipped(albums[0])
    requires tags == [] <==> AllSkipped(albums[1..])
    requires tags != [] ==> exists i: nat :: FirstUnskipped(albums[1..], i) && tags == AlbumTags(albums[1..][i])
    ensures tags == [] <==> AllSkipped(albums)
    ensures tags != [] ==> exists i: nat :: FirstUnskipped(albums, i) && tags == AlbumTags(albums[i])
  {
    assert forall i :: 1 <= i < |albums| ==> albums[i] == albums[1..][i - 1];
    if tags != [] {
      var k: nat :| FirstUnskipped(albums[1..], k) && tags == AlbumTags(albums[1..][k]);
      assert FirstUnskipped(albums, k + 1);
    }
  }

  /** The Open Graph tags come from the first album the page shows, and from no other. */
  lemma {:induction false} OgTagsFromFirstShown(albums: seq<Album>)
    ensures var shown := ShownAlbums(Current, albums);
            OgTags(albums) == if shown == [] then [] else AlbumTags(shown[0])
  {
    if albums != [] {
      OgTagsFromFirstShown(albums[1..]);
    }
  }

  // ---------------------------------------------------------------------------
  // Page navigation

  datatype NavLink = NavLink(target: string, number: nat, current: bool)

  /** The current nav: one link per page, to that page's file, the page being rendered marked. */
  function Nav(rootDir: Option<string>, pageCount: nat, idx: Option<nat>): (nav: seq<NavLink>)
    ensures |nav| == pageCount
    ensures forall i :: 0 <= i < pageCount ==>
              nav[i].target == GetPath(rootDir, PageFileName(i)) && nav[i].number == i + 1
              && (nav[i].current <==> idx == Some(i))
  {
    seq(pageCount, i requires 0 <= i < pageCount => NavLink(GetPath(rootDir, PageFileName(i)), i + 1, idx == Some(i)))
  }

  /** Exactly one link is marked when the page index is in range, none otherwise. */
  lemma NavMarksOne(rootDir: Option<string>, pageCount: nat, idx: nat)
    ensures var nav := Nav(rootDir, pageCount, Some(idx));
            (idx < pageCount ==> nav[idx].current)
            && forall i, j :: 0 <= i < pageCount && 0 <= j < pageCount && nav[i].current && nav[j].current ==> i == j
    ensures pageCount <= idx ==> forall i :: 0 <= i < pageCount ==> !Nav(rootDir, pageCount, Some(idx))[i].current
  {
  }

  /** The older nav: `join(rootDir, getPageFileName(i))` for each page, nothing marked. */
  function LegacyNav(rootDir: string, pageCount: nat, gen: Generation): (nav: seq<NavLink>)
    ensures |nav| == pageCount
    ensures forall i :: 0 <= i < pageCount ==>
              nav[i].target == Join([rootDir, PageFileName(i)]) && nav[i].number == i + 1 && !nav[i].current
  {
    seq(pageCount, i requires 0 <= i < pageCount =>
      NavLink(Join([rootDir, if gen == Root then LegacyPageFileName(i) else PageFileName(i)]), i + 1, false))
  }

  // ---------------------------------------------------------------------------
  // Album pages and the links to them

  /** `writeAlbumPage`: the document path of an album's own page; a skipped album gets none. */
  function AlbumPageDoc(albumDir: string, a: Album): (doc: Option<string>)
    ensures doc.None? <==> Skipped(a)
    ensures doc.Some? ==> doc.value == Join([albumDir, a.dir, "index.html"])
  {
    if Skipped(a) then None else Some(Join([albumDir, a.dir, "index.html"]))
  }

  /** Text `getPath` passes through untouched: no backslash and no query or fragment mark. */
  predicate PlainText(s: string)
  {
    WinSep !in s && forall k :: 0 <= k < |s| ==> !IsMark(s[k])
  }

  /** A directory name that is a single ordinary path segment and not an index document. */
  predicate PlainName(name: string)
  {
    PlainText(name) && IsSegment(name) && Sep !in name && !IsIndexName(name)
  }

  lemma {:induction false} TrailingNameNoSep(name: string)
    requires Sep !in name
    ensures TrailingName(name) == name
  {
    if name != [] {
      TrailingNameNoSep(name[..|name| - 1]);
      assert name == name[..|name| - 1] + [name[|name| - 1]];
    }
  }

  lemma SegmentsOfName(name: string)
    requires IsSegment(name) && Sep !in name
    ensures Segments(name) == [name]
  {
    SplitNoSep(name);
    assert [name][1..] == [];
    assert KeepSegments([name]) == [name] + KeepSegments([]);
  }

  lemma {:induction false} NonEmptyAppend(args: seq<string>, x: string)
    ensures NonEmpty(args + [x]) == NonEmpty(args) + (if x == "" then [] else [x])
  {
    if args == [] {
      assert [x][1..] == [];
    } else {
      assert (args + [x])[1..] == args[1..] + [x];
      NonEmptyAppend(args[1..], x);
    }
  }

  /** `join(albumDir, dir, x)` is the album location `base` followed by `x`. */
  lemma AlbumJoin(albumDir: string, dir: string, x: string)
    requires IsSegment(dir) && Sep !in dir && x != ""
    ensures var base := JoinWithSep(NonEmpty([albumDir, dir]));
            base != "" && Segments(base) == Segments(albumDir) + [dir]
            && Join([albumDir, dir, x]) == Normalize(base + [Sep] + x)
  {
    NonEmptyPair(albumDir, dir);
    assert [albumDir, dir, x] == [albumDir, dir] + [x];
    NonEmptyAppend([albumDir, dir], x);
    var ne := NonEmpty([albumDir, dir]);
    JoinWithSepAppend(ne, [x]);
    SegmentsOfName(dir);
    if albumDir == "" {
      assert Segments("") == [];
    } else {
      SegmentsConcat(albumDir, dir);
    }
  }

  lemma NormalizeChild(base: string, x: string)
    requires base != "" && x != ""
    ensures Normalize(base + [Sep] + x) == Render(IsAbsolute(base), Segments(base) + Segments(x), HasTrailingSep(x))
  {
    var p := base + [Sep] + x;
    SegmentsConcat(base, x);
    assert IsAbsolute(p) == IsAbsolute(base);
    assert HasTrailingSep(p) == HasTrailingSep(x);
  }

  lemma SlashSegments()
    ensures Segments("/") == [] && HasTrailingSep("/")
  {
    assert "/" == [] + [Sep] + [];
    SegmentsConcat([], []);
  }

  /** The album page path renders the album location's segments with a trailing separator. */
  lemma AlbumPathRender(albumDir: string, dir: string)
    requires IsSegment(dir) && Sep !in dir
    ensures var base := JoinWithSep(NonEmpty([albumDir, dir]));
            Join([albumDir, dir, "/"]) == Render(IsAbsolute(base), Segments(base), true)
  {
    var base := JoinWithSep(NonEmpty([albumDir, dir]));
    AlbumJoin(albumDir, dir, "/");
    NormalizeChild(base, "/");
    SlashSegments();
    assert Segments(base) + [] == Segments(base);
  }

  /** The album document path renders the album location's segments followed by `index.html`. */
  lemma AlbumDocRender(albumDir: string, dir: string)
    requires IsSegment(dir) && Sep !in dir
    ensures var base := JoinWithSep(NonEmpty([albumDir, dir]));
            Join([albumDir, dir, "index.html"]) == Render(IsAbsolute(base), Segments(base) + ["index.html"], false)
  {
    var base := JoinWithSep(NonEmpty([albumDir, dir]));
    AlbumJoin(albumDir, dir, "index.html");
    var name := "index.html";
    IndexNamePlain(name);
    assert !HasTrailingSep(name);
    NormalizeChild(base, name);
    SegmentsOfName(name);
  }

  /** A rendered location, then a child name or a trailing separator. */
  lemma RenderChild(absolute: bool, segs: seq<string>, name: string)
    requires segs != []
    ensures Render(absolute, segs, true) == Render(absolute, segs, false) + [Sep]
    ensures Render(absolute, segs + [name], false) == Render(absolute, segs, false) + [Sep] + name
  {
    JoinWithSepAppend(segs, [name]);
  }

  lemma RenderBasename(absolute: bool, front: seq<string>, dir: string)
    requires dir != "" && Sep !in dir
    ensures Basename(Render(absolute, front + [dir], false)) == dir
  {
    var prefix := if absolute then "/" else "";
    var d := Render(absolute, front + [dir], false);
    if front == [] {
      assert front + [dir] == [dir];
      if absolute {
        assert d == [] + [Sep] + dir;
        BasenameChild([], dir);
      } else {
        assert d == dir;
        TrailingNameNoSep(dir);
      }
    } else {
      var body := JoinWithSep(front + [dir]);
      assert front + [dir] != [];
      assert d == prefix + body + "";
      JoinWithSepAppend(front, [dir]);
      assert body == JoinWithSep(front) + [Sep] + dir;
      assert d == (prefix + JoinWithSep(front)) + [Sep] + dir;
      BasenameChild(prefix + JoinWithSep(front), dir);
    }
  }

  /** Joining plain pieces gives plain text: `join` adds only separators and dots. */
  lemma JoinPlain(args: seq<string>)
    requires forall i :: 0 <= i < |args| ==> PlainText(args[i])
    ensures PlainText(Join(args))
  {
    var j := Join(args);
    JoinOmits(args, WinSep);
    JoinOmits(args, '?');
    JoinOmits(args, '#');
    forall k | 0 <= k < |j| ensures !IsMark(j[k]) {
      assert j[k] in j;
    }
  }

  lemma PlainPrefix(d: string, page: string)
    requires page == d + [Sep] && PlainText(page)
    ensures PlainText(d)
  {
    assert forall k :: 0 <= k < |d| ==> d[k] == page[k];
  }

  /**
    The timeline links an album through its `path`, `join(albumDir, dir, "/")`; its page is
    written at `join(albumDir, dir, "index.html")`. For a plain album directory name the two
    give the same link, so the timeline reaches the page.
   */
  lemma AlbumLinkReachesPage(rootDir: Option<string>, albumDir: string, dir: string)
    requires PlainText(albumDir) && PlainName(dir)
    ensures GetPath(rootDir, Join([albumDir, dir, "/"])) == GetPath(rootDir, Join([albumDir, dir, "index.html"]))
  {
    var d := AlbumPageParts(albumDir, dir);
    IndexCollapse(rootDir, d, "index.html", "");
    assert d + [Sep] + "index.html" + "" == d + [Sep] + "index.html";
    assert d + [Sep] + "" == d + [Sep];
  }

  /** An album's link and its page document share one plain directory `d`. */
  lemma AlbumPageParts(albumDir: string, dir: string) returns (d: string)
    requires PlainText(albumDir) && PlainName(dir)
    ensures Join([albumDir, dir, "/"]) == d + [Sep]
    ensures Join([albumDir, dir, "index.html"]) == d + [Sep] + "index.html"
    ensures PlainText(d) && !IsIndexName(Basename(d))
  {
    var base := JoinWithSep(NonEmpty([albumDir, dir]));
    AlbumJoin(albumDir, dir, "/");
    AlbumPathRender(albumDir, dir);
    AlbumDocRender(albumDir, dir);
    var segs := Segments(base);
    d := Render(IsAbsolute(base), segs, false);
    RenderChild(IsAbsolute(base), segs, "index.html");
    RenderBasename(IsAbsolute(base), Segments(albumDir), dir);
    JoinPlain3(albumDir, dir, "/");
    PlainPrefix(d, Join([albumDir, dir, "/"]));
  }

  lemma JoinPlain3(a: string, b: string, c: string)
    requires PlainText(a) && PlainText(b) && PlainText(c)
    ensures PlainText(Join([a, b, c]))
  {
    var args := [a, b, c];
    assert forall i :: 0 <= i < |args| ==> PlainText(args[i]);
    JoinPlain(args);
  }

  /** The first page's document, collapsed, names the current directory: `./`. */
  lemma FirstPageCollapses()
    ensures var here := CollapseIndex(PageFileName(0));
            here != "" && Segments(here) == [] && HasTrailingSep(here) && !IsAbsolute(here)
  {
    var name := "index.html";
    IndexNamePlain(name);
    TrailingNameNoSep(name);
    assert Basename(name) == name;
    DirnameOfName(name);
    assert CollapseIndex(name) == Join([".", "/"]);
    DotSlash();
  }

  /** `join(".", "/")` is `./`: relative, no segments, a trailing separator. */
  lemma DotSlash()
    ensures var here := Join([".", "/"]);
            here != "" && Segments(here) == [] && HasTrailingSep(here) && !IsAbsolute(here)
  {
    NonEmptyPair(".", "/");
    var p := "." + [Sep] + "/";
    assert JoinWithSep([".", "/"]) == p;
    SegmentsConcat(".", "/");
    SplitNoSep(".");
    SlashSegments();
    assert KeepSegments(["."]) == [] + KeepSegments([]);
    assert Segments(p) == [];
    assert HasTrailingSep(p) && !IsAbsolute(p);
  }

  /** Joining `./` after the root changes nothing. */
  lemma JoinHere(root: string, here: string)
    requires IsAbsolute(root) && HasTrailingSep(root)
    requires here != "" && Segments(here) == [] && HasTrailingSep(here)
    ensures Join([root] + [here]) == Normalize(root)
  {
    NonEmptyPair(root, here);
    assert [root] + [here] == [root, here];
    assert JoinWithSep([root, here]) == root + [Sep] + here;
    SegmentsConcat(root, here);
    var x := root + [Sep] + here;
    assert x[|x| - 1] == here[|here| - 1] && x[0] == root[0];
    NormalizeByComponents(x, root);
  }

  lemma FirstPageArgs()
    ensures PathArgs(PageFileName(0)) == [CollapseIndex(PageFileName(0))]
  {
    var name := PageFileName(0);
    IndexNamePlain(name);
    PlainPathArgs(name, "");
    assert name + "" == name;
  }

  /** The first page's link is the site root itself, the same link as the title's `getPath()`. */
  lemma FirstPageLinkIsHome(rootDir: Option<string>)
    ensures GetPath(rootDir, PageFileName(0)) == GetPath(rootDir, "")
  {
    FirstPageArgs();
    FirstPageCollapses();
    JoinHere(NormalizeRoot(rootDir), CollapseIndex(PageFileName(0)));
    GetPathEmpty(rootDir);
  }

  // ---------------------------------------------------------------------------
  // The pages a build writes

  /**
    An index page: its file, the albums `paginate` put on it, the entries it lists, its
    navigation and its Open Graph tags.
   */
  datatype IndexPage = IndexPage(file: string, albums: seq<Album>, entries: seq<Album>, nav: seq<NavLink>, og: seq<OgTag>)

  /** An album's own page: rendered for that album alone, with an empty navigation. */
  datatype AlbumPage = AlbumPage(doc: string, album: Album, og: seq<OgTag>)

  datatype Site = Site(indexPages: seq<IndexPage>, albumPages: seq<AlbumPage>)

  /** `writeIndexPage` for every page `paginate` returns. */
  function IndexPages(rootDir: Option<string>, pages: seq<seq<Album>>): (r: seq<IndexPage>)
    ensures |r| == |pages|
    ensures forall i :: 0 <= i < |pages| ==>
              r[i].file == PageFileName(i) && r[i].albums == pages[i]
              && r[i].entries == ShownAlbums(Current, pages[i])
              && r[i].nav == Nav(rootDir, |pages|, Some(i)) && r[i].og == OgTags(pages[i])
  {
    seq(|pages|, i requires 0 <= i < |pages| =>
      IndexPage(PageFileName(i), pages[i], ShownAlbums(Current, pages[i]), Nav(rootDir, |pages|, Some(i)), OgTags(pages[i])))
  }

  /** `writeAlbumPage` for every album, in order; a skipped album gets no page. */
  function AlbumPages(albumDir: string, albums: seq<Album>): (r: seq<AlbumPage>)
    ensures |r| == |ShownAlbums(Current, albums)|
    ensures forall i :: 0 <= i < |r| ==>
              r[i].album == ShownAlbums(Current, albums)[i]
              && AlbumPageDoc(albumDir, r[i].album) == Some(r[i].doc)
              && r[i].og == AlbumTags(r[i].album)
  {
    if albums == [] then []
    else
      var a := albums[0];
      var rest := AlbumPages(albumDir, albums[1..]);
      match AlbumPageDoc(albumDir, a)
      case None => rest
      case Some(doc) =>
        assert OgTags([a]) == AlbumTags(a);
        [AlbumPage(doc, a, OgTags([a]))] + rest
  }

  /**
    The pages of a loaded timeline. Every album lands on exactly one index page, in timeline
    order; there is at least one index page; page `i` is written to `getPageFileName(i)`, to
    a file no other page uses, lists its albums but the skipped ones, and its navigation
    marks page `i`. Each album the skip rule lets through, and no other, gets a page of its
    own at its document path.
   */
  function SitePlan(s: Settings, albums: seq<Album>): (site: Site)
    ensures var pages := site.indexPages;
            |pages| >= 1 && Flatten(PageAlbums(pages)) == albums
            && (forall i :: 0 <= i < |pages| ==>
                  pages[i].file == PageFileName(i) && |pages[i].nav| == |pages| && pages[i].nav[i].current
                  && pages[i].entries == ShownAlbums(Current, pages[i].albums))
            && (forall i, j :: 0 <= i < j < |pages| ==> pages[i].file != pages[j].file)
    // the index pages are the `paginate` chunks for the configured page size
    ensures PageAlbums(site.indexPages) == Chunks(albums, PageSize(s.perPage, |albums|))
    ensures var aps := site.albumPages;
            (forall a :: a in albums && !Skipped(a) <==> exists i :: 0 <= i < |aps| && aps[i].album == a)
            && forall i :: 0 <= i < |aps| ==> aps[i].doc == Join([s.albumDir, aps[i].album.dir, "index.html"])
  {
    var chunks := Chunks(albums, PageSize(s.perPage, |albums|));
    var pages := IndexPages(s.rootDir, chunks);
    IndexPlan(s.rootDir, albums, PageSize(s.perPage, |albums|));
    AlbumPagesMatchShown(s.albumDir, albums);
    Site(pages, AlbumPages(s.albumDir, albums))
  }

  /** The index pages for one page size: the cover and file-naming facts of `SitePlan`. */
  lemma IndexPlan(rootDir: Option<string>, albums: seq<Album>, p: int)
    ensures PageAlbums(IndexPages(rootDir, Chunks(albums, p))) == Chunks(albums, p)
    ensures var pages := IndexPages(rootDir, Chunks(albums, p));
            |pages| >= 1 && Flatten(PageAlbums(pages)) == albums
            && (forall i :: 0 <= i < |pages| ==>
                  pages[i].file == PageFileName(i) && |pages[i].nav| == |pages| && pages[i].nav[i].current
                  && pages[i].entries == ShownAlbums(Current, pages[i].albums))
            && (forall i, j :: 0 <= i < j < |pages| ==> pages[i].file != pages[j].file)
  {
    var chunks := Chunks(albums, p);
    ChunksFlatten(albums, p);
    IndexPagesAlbums(rootDir, chunks);
    IndexPagesFiles(rootDir, chunks);
  }

  /** The current `build`: load, then one page per shown album and one per `paginate` page. */
  function BuildSite(s: Settings, g: Gallery, listing: Option<seq<string>>): (r: Result<Site, LoadError>)
    // the build fails exactly when a listed album's metadata cannot be loaded ...
    ensures r.Success? <==> forall i :: 0 <= i < |listing.GetOr([])| ==> LoadRecord(g, listing.GetOr([])[i]).Success?
    // ... and otherwise its index pages hold one entry per listed directory, newest first
    ensures r.Success? ==>
              var timeline := Flatten(PageAlbums(r.value.indexPages));
              |timeline| == |listing.GetOr([])| && NewestFirst(timeline, Created)
    ensures r.Success? ==> r.value == SitePlan(s, LoadCurrent(s, g, listing).value)
  {
    var loaded := LoadCurrent(s, g, listing);
    if loaded.Failure? then Failure(loaded.error) else Success(SitePlan(s, loaded.value))
  }

  function PageAlbums(pages: seq<IndexPage>): (r: seq<seq<Album>>)
    ensures |r| == |pages| && forall i :: 0 <= i < |pages| ==> r[i] == pages[i].albums
  {
    seq(|pages|, i requires 0 <= i < |pages| => pages[i].albums)
  }

  lemma IndexPagesAlbums(rootDir: Option<string>, chunks: seq<seq<Album>>)
    ensures PageAlbums(IndexPages(rootDir, chunks)) == chunks
  {
  }

  lemma IndexPagesFiles(rootDir: Option<string>, chunks: seq<seq<Album>>)
    ensures var pages := IndexPages(rootDir, chunks);
            (forall i :: 0 <= i < |pages| ==> pages[i].file == PageFileName(i) && pages[i].nav[i].current)
            && (forall i, j :: 0 <= i < j < |pages| ==> pages[i].file != pages[j].file)
  {
    var pages := IndexPages(rootDir, chunks);
    forall i | 0 <= i < |pages| ensures pages[i].nav[i].current {
      NavMarksOne(rootDir, |chunks|, i);
    }
    forall i, j | 0 <= i < j < |pages| ensures pages[i].file != pages[j].file {
      PageFileNameInjective(i, j);
    }
  }

  lemma AlbumPagesMatchShown(albumDir: string, albums: seq<Album>)
    ensures var aps := AlbumPages(albumDir, albums);
            (forall a :: a in albums && !Skipped(a) <==> exists i :: 0 <= i < |aps| && aps[i].album == a)
            && forall i :: 0 <= i < |aps| ==> aps[i].doc == Join([albumDir, aps[i].album.dir, "index.html"])
  {
    var aps := AlbumPages(albumDir, albums);
    var shown := ShownAlbums(Current, albums);
    forall a ensures a in albums && !Skipped(a) <==> exists i :: 0 <= i < |aps| && aps[i].album == a {
      if a in albums && !Skipped(a) {
        assert Shown(Current, a);
        var i :| 0 <= i < |shown| && shown[i] == a;
        assert aps[i].album == a;
      }
      if exists i :: 0 <= i < |aps| && aps[i].album == a {
        var i :| 0 <= i < |aps| && aps[i].album == a;
        assert shown[i] in shown;
      }
    }
  }

  /** An empty gallery, or one whose listing fails, still gets its one empty index page. */
  lemma EmptyGalleryOnePage(s: Settings, g: Gallery, listing: Option<seq<string>>)
    requires listing.None? || listing == Some([])
    ensures BuildSite(s, g, listing)
            == Success(Site([IndexPage("index.html", [], [], [NavLink(GetPath(s.rootDir, "index.html"), 1, true)], [])], []))
  {
    assert LoadUnsorted(Current, s.galleryDir, None, Some(s.albumDir), g, listing) == Success([]);
    assert LoadCurrent(s, g, listing) == Success([]);
    var none: seq<Album> := [];
    var chunks := Chunks(none, PageSize(s.perPage, 0));
    assert chunks == [[]];
    SingleEmptyPage(s.rootDir);
  }

  lemma SingleEmptyPage(rootDir: Option<string>)
    ensures IndexPages(rootDir, [[]]) == [IndexPage("index.html", [], [], [NavLink(GetPath(rootDir, "index.html"), 1, true)], [])]
  {
    var nav := OnePageNav(rootDir);
    var none: seq<Album> := [];
    var pages := IndexPages(rootDir, [none]);
    var page := IndexPage(PageFileName(0), [], [], nav, []);
    assert |pages| == 1 && pages[0] == page;
    assert pages == [page];
  }

  lemma OnePageNav(rootDir: Option<string>) returns (nav: seq<NavLink>)
    ensures nav == Nav(rootDir, 1, Some(0)) == [NavLink(GetPath(rootDir, "index.html"), 1, true)]
  {
    nav := Nav(rootDir, 1, Some(0));
    var link := NavLink(GetPath(rootDir, PageFileName(0)), 1, true);
    assert |nav| == 1 && nav[0] == link;
    assert nav == [link];
  }

  /** A page of the older writers: file, albums, the entries it lists, navigation. */
  datatype LegacyPage = LegacyPage(file: string, albums: seq<Album>, entries: seq<Album>, nav: seq<NavLink>)

  /** The index pages of the older writers for a loaded timeline. */
  function LegacyPlan(gen: Generation, s: LegacySettings, albums: seq<Album>): (r: seq<LegacyPage>)
    requires gen != Current
    ensures var chunks := Chunks(albums, PageSize(s.perPage, |albums|));
            |r| == |chunks|
            && forall i :: 0 <= i < |r| ==>
                 r[i].file == PageFileName(i) && r[i].albums == chunks[i]
                 && r[i].entries == ShownAlbums(gen, chunks[i])
                 && r[i].nav == LegacyNav(s.rootDir, |chunks|, gen)
    // at least one page; every album on exactly one page, in timeline order, and listed there
    ensures |r| >= 1 && Flatten(LegacyPageAlbums(r)) == albums
    ensures forall i :: 0 <= i < |r| ==> r[i].entries == r[i].albums
  {
    var chunks := Chunks(albums, PageSize(s.perPage, |albums|));
    var r := seq(|chunks|, i requires 0 <= i < |chunks| =>
      LegacyPage(if gen == Root then LegacyPageFileName(i) else PageFileName(i),
                 chunks[i], ShownAlbums(gen, chunks[i]), LegacyNav(s.rootDir, |chunks|, gen)));
    LegacyPagesHoldChunks(gen, r, chunks);
    ChunksFlatten(albums, PageSize(s.perPage, |albums|));
    r
  }

  lemma LegacyPagesHoldChunks(gen: Generation, r: seq<LegacyPage>, chunks: seq<seq<Album>>)
    requires gen != Current
    requires |r| == |chunks|
    requires forall i :: 0 <= i < |r| ==> r[i].albums == chunks[i] && r[i].entries == ShownAlbums(gen, chunks[i])
    ensures LegacyPageAlbums(r) == chunks
    ensures forall i :: 0 <= i < |r| ==> r[i].entries == r[i].albums
  {
    forall i | 0 <= i < |r| ensures r[i].entries == r[i].albums {
      LegacyShowsAll(gen, chunks[i]);
    }
  }

  function LegacyPageAlbums(pages: seq<LegacyPage>): (r: seq<seq<Album>>)
    ensures |r| == |pages| && forall i :: 0 <= i < |pages| ==> r[i] == pages[i].albums
  {
    seq(|pages|, i requires 0 <= i < |pages| => pages[i].albums)
  }

  /** `build` of the srcs generation and the root script: index pages only. */
  function BuildLegacy(gen: Generation, s: LegacySettings, g: Gallery, listing: Option<seq<string>>): (r: Result<seq<LegacyPage>, LoadError>)
    requires gen != Current
    // the srcs build fails only on an unloadable record; the root script also on a failed listing
    ensures r.Success? <==> (listing.Some? || gen == Srcs)
                            && forall i :: 0 <= i < |listing.GetOr([])| ==> LoadRecord(g, listing.GetOr([])[i]).Success?
    // the pages list every listed album exactly once, newest first
    ensures r.Success? ==>
              var timeline := Flatten(LegacyPageAlbums(r.value));
              |timeline| == |listing.GetOr([])| && NewestFirst(timeline, Created)
              && forall i :: 0 <= i < |r.value| ==> r.value[i].entries == r.value[i].albums
    ensures r.Success? ==> r.value == LegacyPlan(gen, s, LoadLegacy(gen, s, g, listing).value)
  {
    var loaded := LoadLegacy(gen, s, g, listing);
    if loaded.Failure? then Failure(loaded.error) else Success(LegacyPlan(gen, s, loaded.value))
  }

  /** The older rule keeps every album: each page lists all the albums `paginate` put on it. */
  lemma {:induction false} LegacyShowsAll(gen: Generation, albums: seq<Album>)
    requires gen != Current
    ensures ShownAlbums(gen, albums) == albums
  {
    if albums != [] {
      LegacyShowsAll(gen, albums[1..]);
      assert albums == [albums[0]] + albums[1..];
    }
  }

  /** In the srcs generation a failed listing still yields exactly one empty page; the root script fails. */
  lemma LegacyListingFailureOnePage(s: LegacySettings, g: Gallery)
    ensures BuildLegacy(Srcs, s, g, None) == Success([LegacyPage("index.html", [], [], [NavLink(Join([s.rootDir, "index.html"]), 1, false)])])
    ensures BuildLegacy(Root, s, g, None) == Failure(ListingFailed)
  {
    assert LoadLegacy(Srcs, s, g, None) == Success([]);
    var none: seq<Album> := [];
    var chunks := Chunks(none, PageSize(s.perPage, 0));
    assert chunks == [[]];
    var nav := LegacyNav(s.rootDir, 1, Srcs);
    assert nav == [NavLink(Join([s.rootDir, "index.html"]), 1, false)];
    assert LegacyPlan(Srcs, s, none) == [LegacyPage("index.html", [], [], nav)];
  }
}
