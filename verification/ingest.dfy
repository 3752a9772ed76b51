/**
  Album ingestion (`writeAlbum` and the empty-album guard of `create`) as a transition of
  the gallery store. File-system calls are steps that may fail; a failure anywhere after
  the listing sends control to the rollback, which removes the album directory.
 */
module Ingest {
  import opened Wrappers
  import opened Decimal
  import opened DirNames
  import opened Resize
  import opened Store

  /** The album `create` assembles from options or prompts. */
  datatype Draft = Draft(text: Option<string>, images: seq<string>, date: int)

  /** A source image on disk: its bytes and, when it decodes, its metadata. */
  datatype Source = Source(content: seq<bv8>, meta: Option<ImageMeta>)

  /** The fallible steps of `writeAlbum`, in order. */
  datatype Step = MakeDir | ImageStep(index: nat) | WriteIndex

  /**
    Everything the file system decides: the gallery listing (`None` when `readdir` fails),
    the readable sources, and the steps that fail for reasons outside the model (no space,
    permissions, ...). `mkdir` also fails when the name already exists.
   */
  datatype Env = Env(listing: Option<seq<string>>, sources: map<string, Source>, faults: set<Step>)

  /** `${dirName}-${i + 1}.jpg` in azgallery, `${i + 1}.jpg` in srcs. */
  datatype Naming = PrefixedNames | PlainNames

  datatype Options = Options(naming: Naming, compress: bool, maxEdge: pos)

  /** The current generation: prefixed names; `compress` comes from the command line. */
  function CurrentOptions(compress: bool): Options
  {
    Options(PrefixedNames, compress, MaxImageSize)
  }

  /** The srcs generation calls `writeAlbum` without options, so `compress` is undefined. */
  const LegacyOptions: Options := Options(PlainNames, false, LegacyMaxImageSize)

  datatype Outcome = Written(name: string) | RolledBack(name: string) | Skipped

  datatype Transition = Transition(gallery: Gallery, outcome: Outcome)

  predicate EndsWith(s: string, suffix: string) {
    |suffix| <= |s| && s[|s| - |suffix|..] == suffix
  }

  /** The stored name of the image at 0-based position `i`. */
  function FileName(naming: Naming, dir: string, i: nat): (f: string)
    ensures |f| > 4 && f[|f| - 4..] == ".jpg"
  {
    match naming
    case PrefixedNames => dir + "-" + NatToString(i + 1) + ".jpg"
    case PlainNames => NatToString(i + 1) + ".jpg"
  }

  lemma MiddleCancel(a: string, b: string, c: string, b2: string)
    requires a + b + c == a + b2 + c
    ensures b == b2
  {
    var s := a + b + c;
    assert |b| == |b2|;
    assert b == s[|a|..|a| + |b|];
    assert b2 == (a + b2 + c)[|a|..|a| + |b2|];
  }

  /** Different positions give different file names, under both namings. */
  lemma FileNameInjective(naming: Naming, dir: string, i: nat, j: nat)
    ensures FileName(naming, dir, i) == FileName(naming, dir, j) ==> i == j
  {
    if FileName(naming, dir, i) == FileName(naming, dir, j) {
      if naming.PrefixedNames? {
        MiddleCancel(dir + "-", NatToString(i + 1), ".jpg", NatToString(j + 1));
      } else {
        MiddleCancel([], NatToString(i + 1), ".jpg", NatToString(j + 1));
      }
      NatToStringInjective(i + 1, j + 1);
    }
  }

  /** In `d + "-" + n` with a digit run `n`, the `-` at `|d|` is the last one. */
  lemma LastDash(d: string, n: string)
    requires AllDigits(n)
    ensures (d + "-" + n)[|d|] == '-'
    ensures forall k :: |d| < k < |d + "-" + n| ==> (d + "-" + n)[k] != '-'
  {
    forall k | |d| < k < |d + "-" + n| ensures (d + "-" + n)[k] != '-' {
      assert (d + "-" + n)[k] == n[k - |d| - 1];
    }
  }

  /** `d + "-" + n` with a digit run `n` splits at its last `-`, so both parts are recovered. */
  lemma DashSplit(d1: string, n1: string, d2: string, n2: string)
    requires AllDigits(n1) && AllDigits(n2)
    requires d1 + "-" + n1 == d2 + "-" + n2
    ensures d1 == d2 && n1 == n2
  {
    var s := d1 + "-" + n1;
    LastDash(d1, n1);
    LastDash(d2, n2);
    assert |d1| == |d2|;
    assert n1 == s[|d1| + 1..];
    assert n2 == s[|d2| + 1..];
    assert d1 == s[..|d1|];
    assert d2 == s[..|d2|];
  }

  /**
    The `<dir>-` prefix keeps the files of different albums apart: a prefixed name determines
    both its album and its position.
   */
  lemma PrefixedNamesAcrossAlbums(d1: string, i: nat, d2: string, j: nat)
    ensures FileName(PrefixedNames, d1, i) == FileName(PrefixedNames, d2, j) ==> d1 == d2 && i == j
  {
    var f1 := FileName(PrefixedNames, d1, i);
    var f2 := FileName(PrefixedNames, d2, j);
    if f1 == f2 {
      var a := d1 + "-" + NatToString(i + 1);
      var b := d2 + "-" + NatToString(j + 1);
      assert f1 == a + ".jpg" && f2 == b + ".jpg";
      assert a == f1[..|f1| - 4];
      assert b == f2[..|f2| - 4];
      DashSplit(d1, NatToString(i + 1), d2, NatToString(j + 1));
      NatToStringInjective(i + 1, j + 1);
    }
  }

  /** The older `<i+1>.jpg` naming has no such guarantee: the first image of every album is `1.jpg`. */
  lemma PlainNamesCollideAcrossAlbums()
    ensures FileName(PlainNames, "a", 0) == FileName(PlainNames, "b", 0) == "1.jpg"
  {
  }

  /** The metadata names of an album with `n` images, in input order. */
  function FileNames(naming: Naming, dir: string, n: nat): (names: seq<string>)
    ensures |names| == n
    ensures forall i :: 0 <= i < n ==> names[i] == FileName(naming, dir, i)
    // the names are pairwise distinct, so no image overwrites another
    ensures forall i, j :: 0 <= i < j < n ==> names[i] != names[j]
  {
    var names := seq(n, i requires 0 <= i => FileName(naming, dir, i));
    forall i, j | 0 <= i < j < n
      ensures names[i] != names[j]
    {
      FileNameInjective(naming, dir, i, j);
    }
    names
  }

  /**
    The image library accepts only positive target edges: `resize` with a 0-pixel edge
    rejects, so the transcode fails.
   */
  predicate Transcodable(m: ImageMeta, maxEdge: pos)
  {
    ResizeDims(m, maxEdge).width > 0 && ResizeDims(m, maxEdge).height > 0
  }

  /** A readable source can be copied; one to transcode must also decode and resize to a positive size. */
  predicate Usable(opts: Options, s: Source)
  {
    opts.compress ==> s.meta.Some? && Transcodable(s.meta.value, opts.maxEdge)
  }

  /** Copying or transcoding one source; `None` when that step fails. */
  function PutImage(opts: Options, env: Env, i: nat, src: string): (r: Option<StoredFile>)
    ensures r.Some? <==> ImageStep(i) !in env.faults && src in env.sources
                         && Usable(opts, env.sources[src])
    ensures r.Some? && opts.compress ==> r.value == Transcoded(ResizeDims(env.sources[src].meta.value, opts.maxEdge))
    ensures r.Some? && !opts.compress ==> r.value == Copied(env.sources[src].content)
  {
    if ImageStep(i) in env.faults || src !in env.sources then None
    else
      var s := env.sources[src];
      if !opts.compress then Some(Copied(s.content))
      else if !Usable(opts, s) then None
      else Some(Transcoded(ResizeDims(s.meta.value, opts.maxEdge)))
  }

  predicate ImageSucceeds(opts: Options, env: Env, images: seq<string>, i: nat)
    requires i < |images|
  {
    PutImage(opts, env, i, images[i]).Some?
  }

  /**
    The images from position `k` on, each copied or transcoded; the stored files come back
    in image order, and the whole step fails as soon as one image does (`Promise.all`).
   */
  function PutImages(opts: Options, env: Env, images: seq<string>, k: nat): (r: Option<seq<StoredFile>>)
    requires k <= |images|
    ensures r.Some? <==> forall i :: k <= i < |images| ==> ImageSucceeds(opts, env, images, i)
    ensures r.Some? ==> |r.value| == |images| - k
    ensures r.Some? ==> forall i :: k <= i < |images| ==> PutImage(opts, env, i, images[i]) == Some(r.value[i - k])
    decreases |images| - k
  {
    if k == |images| then Some([])
    else
      var f := PutImage(opts, env, k, images[k]);
      var rest := PutImages(opts, env, images, k + 1);
      if f.None? then
        assert !ImageSucceeds(opts, env, images, k);
        None
      else if rest.None? then None
      else Some([f.value] + rest.value)
  }

  /** The album directory's contents: the `i`-th stored file under the `i`-th image name. */
  function AlbumFiles(naming: Naming, dir: string, files: seq<StoredFile>): (m: map<string, StoredFile>)
    ensures m.Keys == set i | 0 <= i < |files| :: FileName(naming, dir, i)
    ensures forall i :: 0 <= i < |files| ==> m[FileName(naming, dir, i)] == files[i]
  {
    var names := FileNames(naming, dir, |files|);
    map i | 0 <= i < |files| :: names[i] := files[i]
  }

  /** The `metadata` object of a successfully written album. */
  function MakeRecord(naming: Naming, dir: string, draft: Draft): (r: Record)
    ensures r.dir == dir && r.created == draft.date && r.layout == "album" && r.text == draft.text
    ensures r.images.Some? && |r.images.value| == |draft.images|
    ensures forall i :: 0 <= i < |draft.images| ==> r.images.value[i] == FileName(naming, dir, i)
    ensures r.authors.None? && r.tags.None?
    // one `.jpg` file per drafted image, no two sharing a name
    ensures forall i :: 0 <= i < |draft.images| ==> EndsWith(r.images.value[i], ".jpg")
    ensures forall i, j :: 0 <= i < j < |draft.images| ==> r.images.value[i] != r.images.value[j]
  {
    Record(dir, draft.date, "album", draft.text, Some(FileNames(naming, dir, |draft.images|)), None, None)
  }

  /** The directory name `writeAlbum` picks: a failed listing counts as an empty gallery. */
  function ChosenName(draft: Draft, env: Env): (name: string)
    ensures env.listing.Some? ==> name !in env.listing.value
    ensures env.listing.None? ==> name == BaseName(draft.date)
  {
    MakeDirName(draft.date, env.listing.GetOr([]))
  }

  /** Every step after the listing succeeds, so the album is written. */
  predicate AllStepsSucceed(g: Gallery, draft: Draft, opts: Options, env: Env)
  {
    MakeDir !in env.faults && ChosenName(draft, env) !in g
    && (forall i :: 0 <= i < |draft.images| ==> ImageSucceeds(opts, env, draft.images, i))
    && WriteIndex !in env.faults
  }

  /**
    A written album is new, leaves every other album alone, carries the drafted record and
    holds exactly one file per source image, under that image's name.
   */
  predicate WrittenAsDrafted(g: Gallery, draft: Draft, opts: Options, env: Env, t: Transition)
    requires t.outcome.Written?
  {
    var name := t.outcome.name;
    name == ChosenName(draft, env) && name !in g && name in t.gallery
    && t.gallery - {name} == g
    && t.gallery[name].index == Parsed(MakeRecord(opts.naming, name, draft))
    && t.gallery[name].files.Keys == (set i | 0 <= i < |draft.images| :: FileName(opts.naming, name, i))
    && forall i :: 0 <= i < |draft.images| ==>
         PutImage(opts, env, i, draft.images[i]) == Some(t.gallery[name].files[FileName(opts.naming, name, i)])
  }

  /**
    `writeAlbum` as written: every failure, including a failed `mkdir`, ends in a recursive
    forced removal of the album path.
   */
  function WriteAlbumAsWritten(g: Gallery, draft: Draft, opts: Options, env: Env): (t: Transition)
    ensures t.outcome.Written? <==> AllStepsSucceed(g, draft, opts, env)
    ensures t.outcome.RolledBack? ==> t.gallery == g - {ChosenName(draft, env)}
    ensures t.outcome.Written? ==> WrittenAsDrafted(g, draft, opts, env, t)
    ensures !t.outcome.Skipped?
  {
    var name := ChosenName(draft, env);
    if MakeDir in env.faults || name in g then
      Transition(g - {name}, RolledBack(name))
    else
      var made := g[name := AlbumDir(map[], Missing)];
      var files := PutImages(opts, env, draft.images, 0);
      if files.None? || WriteIndex in env.faults then
        RemoveAdded(g, name, AlbumDir(map[], Missing));
        Transition(made - {name}, RolledBack(name))
      else
        // the directory `mkdir` made now holds the files and the index
        var t := Transition(g[name := AlbumDir(AlbumFiles(opts.naming, name, files.value), Parsed(MakeRecord(opts.naming, name, draft)))], Written(name));
        WrittenBranch(g, draft, opts, env, files.value, t);
        t
  }

  lemma RemoveAdded(g: Gallery, name: string, d: AlbumDir)
    requires name !in g
    ensures g[name := d] - {name} == g
  {
  }

  /** The album `writeAlbum` leaves when every step succeeds is the drafted one. */
  lemma WrittenBranch(g: Gallery, draft: Draft, opts: Options, env: Env, files: seq<StoredFile>, t: Transition)
    requires ChosenName(draft, env) !in g
    requires PutImages(opts, env, draft.images, 0) == Some(files)
    requires t == Transition(g[ChosenName(draft, env) := AlbumDir(AlbumFiles(opts.naming, ChosenName(draft, env), files), Parsed(MakeRecord(opts.naming, ChosenName(draft, env), draft)))],
                             Written(ChosenName(draft, env)))
    ensures WrittenAsDrafted(g, draft, opts, env, t)
  {
    var name := ChosenName(draft, env);
    FilesAsDrafted(opts, env, draft.images, name, files);
    assert t.gallery[name].files == AlbumFiles(opts.naming, name, files);
    assert t.gallery - {name} == g;
  }

  /** The directory built from what `PutImages` stored holds each image's content under its name. */
  lemma FilesAsDrafted(opts: Options, env: Env, images: seq<string>, name: string, files: seq<StoredFile>)
    requires PutImages(opts, env, images, 0) == Some(files)
    ensures var m := AlbumFiles(opts.naming, name, files);
            m.Keys == (set i | 0 <= i < |images| :: FileName(opts.naming, name, i))
            && forall i :: 0 <= i < |images| ==> PutImage(opts, env, i, images[i]) == Some(m[FileName(opts.naming, name, i)])
  {
    var m := AlbumFiles(opts.naming, name, files);
    forall i | 0 <= i < |images|
      ensures PutImage(opts, env, i, images[i]) == Some(m[FileName(opts.naming, name, i)])
    {
      assert m[FileName(opts.naming, name, i)] == files[i];
    }
  }

  /**
    `writeAlbum` with the rollback limited to a directory this call created: when `mkdir`
    itself fails there is nothing of ours to remove.
   */
  function WriteAlbum(g: Gallery, draft: Draft, opts: Options, env: Env): (t: Transition)
    ensures t.outcome.Written? <==> AllStepsSucceed(g, draft, opts, env)
    ensures t.outcome.RolledBack? ==> t.gallery == g
    ensures t.outcome.Written? ==> WrittenAsDrafted(g, draft, opts, env, t)
    ensures !t.outcome.Skipped?
  {
    var name := ChosenName(draft, env);
    if MakeDir in env.faults || name in g then
      Transition(g, RolledBack(name))
    else
      var t := WriteAlbumAsWritten(g, draft, opts, env);
      assert t.outcome.RolledBack? ==> g - {name} == g;
      assert t.outcome.Written? ==> t.gallery - {name} == g;
      t
  }

  /**
    `create` after the prompts as written: an album with no images and no text is not
    written, and any other draft goes to `writeAlbum` with its rollback as written.
   */
  function CreateAsWritten(g: Gallery, draft: Draft, opts: Options, env: Env): (t: Transition)
    ensures t.outcome.Skipped? <==> |draft.images| == 0 && draft.text.None?
    // a non-empty draft is written exactly when every step of `writeAlbum` succeeds
    ensures t.outcome.Written? <==> !(|draft.images| == 0 && draft.text.None?) && AllStepsSucceed(g, draft, opts, env)
    ensures t.outcome.Skipped? ==> t.gallery == g
    ensures t.outcome.RolledBack? ==> t.gallery == g - {ChosenName(draft, env)}
    ensures t.outcome.Written? ==> WrittenAsDrafted(g, draft, opts, env, t)
  {
    if |draft.images| == 0 && draft.text.None? then Transition(g, Skipped)
    else WriteAlbumAsWritten(g, draft, opts, env)
  }

  /**
    `create` after the prompts, over the corrected `writeAlbum`: an album with no images and
    no text is not written at all, and a call that writes nothing leaves the gallery as it was.
   */
  function Create(g: Gallery, draft: Draft, opts: Options, env: Env): (t: Transition)
    ensures t.outcome.Skipped? <==> |draft.images| == 0 && draft.text.None?
    // a non-empty draft is written exactly when every step of `writeAlbum` succeeds
    ensures t.outcome.Written? <==> !(|draft.images| == 0 && draft.text.None?) && AllStepsSucceed(g, draft, opts, env)
    ensures !t.outcome.Written? ==> t.gallery == g
    ensures t.outcome.Written? ==> WrittenAsDrafted(g, draft, opts, env, t)
  {
    if |draft.images| == 0 && draft.text.None? then Transition(g, Skipped)
    else WriteAlbum(g, draft, opts, env)
  }

  /** The two rollbacks differ only when `mkdir` meets an existing album of the same name. */
  lemma AsWrittenAgreesUnlessNameTaken(g: Gallery, draft: Draft, opts: Options, env: Env)
    requires ChosenName(draft, env) !in g
    ensures WriteAlbumAsWritten(g, draft, opts, env) == WriteAlbum(g, draft, opts, env)
  {
    assert g - {ChosenName(draft, env)} == g;
  }

  /** `create` as written and corrected differ only where `writeAlbum` does. */
  lemma CreateAgreesUnlessNameTaken(g: Gallery, draft: Draft, opts: Options, env: Env)
    requires ChosenName(draft, env) !in g
    ensures CreateAsWritten(g, draft, opts, env) == Create(g, draft, opts, env)
  {
    AsWrittenAgreesUnlessNameTaken(g, draft, opts, env);
  }

  /** When the listing is faithful the chosen name is always free, so both versions agree. */
  lemma FaithfulListingAgrees(g: Gallery, draft: Draft, opts: Options, env: Env)
    requires env.listing.Some? && forall name :: name in g ==> name in env.listing.value
    ensures ChosenName(draft, env) !in g
    ensures WriteAlbumAsWritten(g, draft, opts, env) == WriteAlbum(g, draft, opts, env)
  {
    AsWrittenAgreesUnlessNameTaken(g, draft, opts, env);
  }

  /**
    A failed listing makes `makeDirName` return the bare timestamp; when that album exists,
    `mkdir` fails and the as-written rollback deletes the existing album.
   */
  lemma RollbackDeletesExistingAlbum()
    ensures var old_ := AlbumDir(map["1000-1.jpg" := Copied([])],
                                 Parsed(MakeRecord(PrefixedNames, "1000", Draft(None, ["a.jpg"], 1000))));
            var g := map["1000" := old_];
            var env := Env(None, map[], {});
            var draft := Draft(Some("hello"), [], 1000);
            WriteAlbumAsWritten(g, draft, CurrentOptions(true), env).gallery == map[]
            && WriteAlbum(g, draft, CurrentOptions(true), env).gallery == g
            && CreateAsWritten(g, draft, CurrentOptions(true), env).gallery == map[]
            && Create(g, draft, CurrentOptions(true), env).gallery == g
  {
    var env := Env(None, map[], {});
    var draft := Draft(Some("hello"), [], 1000);
    assert NatToString(1000) == "1000" by {
      assert NatToString(1) == "1";
      assert NatToString(10) == "10";
      assert NatToString(100) == "100";
    }
    assert BaseName(1000) == "1000";
    assert Candidate("1000", 0) !in [];
    assert ChosenName(draft, env) == "1000";
  }

  /** The srcs generation never transcodes: every stored image is a byte copy of its source. */
  lemma LegacyCopiesVerbatim(g: Gallery, draft: Draft, env: Env)
    ensures var t := Create(g, draft, LegacyOptions, env);
            t.outcome.Written? ==>
              forall i :: 0 <= i < |draft.images| ==>
                t.gallery[t.outcome.name].files[FileName(PlainNames, t.outcome.name, i)]
                  == Copied(env.sources[draft.images[i]].content)
  {
    var t := Create(g, draft, LegacyOptions, env);
    if t.outcome.Written? {
      assert WrittenAsDrafted(g, draft, LegacyOptions, env, t);
    }
  }

  /** Ingestion keeps the gallery well formed: a new album's metadata lists exactly its files. */
  lemma CreatePreservesWellFormed(g: Gallery, draft: Draft, opts: Options, env: Env)
    requires WellFormed(g)
    ensures WellFormed(Create(g, draft, opts, env).gallery)
  {
    var t := Create(g, draft, opts, env);
    if t.outcome.Written? {
      var name := t.outcome.name;
      var a := t.gallery[name];
      var names := a.index.record.images.value;
      forall img | img in names ensures img in a.files {
        var i :| 0 <= i < |names| && names[i] == img;
      }
      forall n | n in t.gallery ensures WellFormedAlbum(n, t.gallery[n]) {
        if n != name {
          assert n in t.gallery - {name};
        }
      }
    }
  }
}
