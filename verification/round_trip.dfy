/**
  What `create` writes, `build` reads back: the two halves of the program meet at the
  album's `index.json`.
 */
module RoundTrip {
  import opened Wrappers
  import opened Decimal
  import opened PosixPath
  import opened SitePath
  import opened DirNames
  import opened Store
  import opened Ingest
  import opened Timeline

  /** The album `build` makes of a freshly written draft. */
  function DraftedAlbum(s: Settings, naming: Naming, name: string, draft: Draft): (a: Album)
    ensures a.dir == name && a.created == draft.date && a.text == draft.text
    ensures |a.images| == |draft.images|
  {
    Album(name, draft.date, draft.text,
          seq(|draft.images|, i requires 0 <= i < |draft.images| => ImagePath(s.galleryDir, None, name, FileName(naming, name, i))),
          Some(Join([s.albumDir, name, "/"])))
  }

  /**
    After a successful `create`, reading the new directory gives back the draft: its date,
    its text, and one image path per drafted image, pointing at the file written for it.
    Every other directory reads exactly as before, and the new album is never skipped.
   */
  lemma WrittenAlbumLoads(s: Settings, g: Gallery, draft: Draft, opts: Options, env: Env)
    requires Create(g, draft, opts, env).outcome.Written?
    ensures var t := Create(g, draft, opts, env);
            var name := t.outcome.name;
            var loaded := LoadRecord(t.gallery, name);
            loaded.Success?
            && ToAlbum(s.galleryDir, None, Some(s.albumDir), loaded.value) == DraftedAlbum(s, opts.naming, name, draft)
            && !Timeline.Skipped(DraftedAlbum(s, opts.naming, name, draft))
            && forall n :: n != name ==> LoadRecord(t.gallery, n) == LoadRecord(g, n)
  {
    var t := Create(g, draft, opts, env);
    var name := t.outcome.name;
    var r := MakeRecord(opts.naming, name, draft);
    assert t.gallery[name].index == Parsed(r);
    var a := ToAlbum(s.galleryDir, None, Some(s.albumDir), r);
    assert a.images == DraftedAlbum(s, opts.naming, name, draft).images;
    forall n | n != name ensures LoadRecord(t.gallery, n) == LoadRecord(g, n) {
      assert n in t.gallery <==> n in g;
      if n in g {
        assert t.gallery[n] == (t.gallery - {name})[n];
      }
    }
  }

  /**
    End to end: once `create` has written an album, a `build` whose listing shows the new
    directory and that loads at all puts the drafted album on the timeline and gives it
    an album page of its own.
   */
  lemma WrittenAlbumIsBuilt(s: Settings, g: Gallery, draft: Draft, opts: Options, env: Env, names: seq<string>)
    requires Create(g, draft, opts, env).outcome.Written?
    requires Create(g, draft, opts, env).outcome.name in names
    requires LoadCurrent(s, Create(g, draft, opts, env).gallery, Some(names)).Success?
    ensures var t := Create(g, draft, opts, env);
            var a := DraftedAlbum(s, opts.naming, t.outcome.name, draft);
            var albums := LoadCurrent(s, t.gallery, Some(names)).value;
            a in albums
            && exists i :: 0 <= i < |SitePlan(s, albums).albumPages| && SitePlan(s, albums).albumPages[i].album == a
  {
    var t := Create(g, draft, opts, env);
    var name := t.outcome.name;
    var a := DraftedAlbum(s, opts.naming, name, draft);
    WrittenAlbumLoads(s, g, draft, opts, env);
    LoadedImagesRewritten(Current, s.galleryDir, None, Some(s.albumDir), t.gallery, Some(names), name);
    var albums := LoadCurrent(s, t.gallery, Some(names)).value;
    assert a in albums;
    var site := SitePlan(s, albums);
    assert exists i :: 0 <= i < |site.albumPages| && site.albumPages[i].album == a;
  }

  /** The characters `makeDirName` can produce: digits, the `n` of a negative date, and `-`. */
  predicate NameChar(c: char)
  {
    IsDigit(c) || c == 'n' || c == '-'
  }

  lemma DigitsAreNameChars(s: string)
    requires AllDigits(s)
    ensures forall k :: 0 <= k < |s| ==> NameChar(s[k])
  {
  }

  lemma BaseNameChars(created: int)
    ensures forall k :: 0 <= k < |BaseName(created)| ==> NameChar(BaseName(created)[k])
  {
    var b := BaseName(created);
    if created >= 0 {
      DigitsAreNameChars(NatToString(created));
    } else {
      var d := NatToString(-created);
      DigitsAreNameChars(d);
      forall k | 1 <= k < |b| ensures NameChar(b[k]) {
        assert b[k] == d[k - 1];
      }
    }
  }

  /**
    Every directory name `makeDirName` produces is one plain path segment: no separator,
    no backslash, no `?` or `#`, not `.` and not an index document.
   */
  lemma MadeNamesArePlain(created: int, subDirs: seq<string>)
    ensures PlainName(MakeDirName(created, subDirs))
  {
    var name := MakeDirName(created, subDirs);
    var base := BaseName(created);
    BaseNameChars(created);
    if base in subDirs {
      var k :| 1 <= k <= |subDirs| && name == base + "-" + NatToString(k);
      DigitsAreNameChars(NatToString(k));
      SuffixedNameChars(base, NatToString(k));
    }
    NameCharsPlain(name);
  }

  lemma SuffixedNameChars(base: string, d: string)
    requires forall k :: 0 <= k < |base| ==> NameChar(base[k])
    requires forall k :: 0 <= k < |d| ==> NameChar(d[k])
    ensures var name := base + "-" + d;
            forall i :: 0 <= i < |name| ==> NameChar(name[i])
  {
    var name := base + "-" + d;
    forall i | 0 <= i < |name| ensures NameChar(name[i]) {
      if i < |base| {
        assert name[i] == base[i];
      } else if i > |base| {
        assert name[i] == d[i - |base| - 1];
      }
    }
  }

  /** A non-empty name of digits, `n` and `-` that does not start with `.` or `i` is plain. */
  lemma NameCharsPlain(name: string)
    requires name != "" && name[0] != '-'
    requires forall i :: 0 <= i < |name| ==> NameChar(name[i])
    ensures PlainName(name)
  {
    assert name[0] != '.' && name[0] != 'i';
  }

  /**
    So the link an index page gives a written album, `<albumDir>/<name>/`, and the album
    page's own document path name the same page.
   */
  lemma MadeAlbumLinkReachesPage(rootDir: Option<string>, albumDir: string, created: int, subDirs: seq<string>)
    requires PlainText(albumDir)
    ensures var name := MakeDirName(created, subDirs);
            GetPath(rootDir, Join([albumDir, name, "/"])) == GetPath(rootDir, Join([albumDir, name, "index.html"]))
  {
    MadeNamesArePlain(created, subDirs);
    AlbumLinkReachesPage(rootDir, albumDir, MakeDirName(created, subDirs));
  }
}
