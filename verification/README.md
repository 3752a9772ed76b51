# azgallery core, modelled in Dafny

azgallery is a static photo-gallery generator. `create` turns a draft album into a new
directory of the gallery store: a timestamp-derived directory name, one image file per
source image (a byte copy, or a JPEG transcoded so that its longest edge has a fixed size),
and an `index.json` metadata record. If a step fails, the directory is removed again.
`build` reads every record back, turns image names into site paths, orders the albums
newest first with a stable sort, and cuts them into pages. It then writes:

- one index page per page, with the Open Graph tags of its first non-empty album and a
  navigation bar;
- one page per non-empty album.

Every link goes through `getPathFn(rootDir)`.

The repository keeps three generations of this pipeline:

- the current package (`azgallery/`);
- an older module layout (`srcs/`);
- the original single script (`build.js`).

They differ in a few edges, all of which the model keeps:

| edge | `azgallery/` | `srcs/` | `build.js` |
|---|---|---|---|
| image file names | `<dir>-<i+1>.jpg` | `<i+1>.jpg` | — |
| maximum edge | 1800 | 1280 | — |
| failed gallery listing | no albums | no albums | build fails |
| image paths in records | rewritten without `rootDir` | rewritten under `rootDir` | rewritten under `rootDir` |
| skip rule | no images and no text | `images == null && text == null` | same as `srcs/` |
| navigation | marks the current page | marks nothing | marks nothing |

The model is functional. The gallery store is a `map` from directory name to album
directory. Each file-system step of `create` is fallible through an environment value
(`Ingest.Env`): the listing, the readable sources, and a set of failing steps. `build` is a
pure function from settings and store to a `Result` holding a site plan. The site plan
lists, for every index page and album page, its file, its albums, the entries it lists,
its navigation and its Open Graph tags.

Module layout, one module per file:

- `wrappers.dfy` — `Option` and `Result`.
- `decimal.dfy` — decimal rendering of integers (`${n}`).
- `posix_path.dfy` — node's `path.posix`: `join`, `normalize`, `basename`, `dirname`.
- `site_path.dfy` — `getPathFn`.
- `dir_names.dfy` — `makeDirName`.
- `resize.dfy` — the arithmetic of `compressJPG`.
- `store.dfy` — the gallery store.
- `ingest.dfy` — `writeAlbum` and `create`.
- `sorting.dfy` — the newest-first sort.
- `pagination.dfy` — `paginate` and `getPageFileName`.
- `timeline.dfy` — `readGalleryAlbums`, the skip, Open Graph and navigation rules, and the
  build plan.
- `round_trip.dfy` — what `create` writes and `build` reads.

## Model

| member | source | states |
|---|---|---|
| Decimal.NatToString | azgallery/create.js:48 | The decimal form of a natural number is non-empty and all digits. It is exactly `0` for zero and has no leading zero otherwise, so the form is canonical. |
| Decimal.ParseNatToString | azgallery/create.js:48 | Reading the decimal form back gives the number: the rendering loses nothing. |
| Decimal.IntToString | azgallery/create.js:48 | `${n}` of a negative number is `-` followed by digits that read back as `-n`; of any other number, digits that read back as `n`. The digits carry no leading zero, and zero is `0` alone. |
| Decimal.NatToStringInjective | azgallery/create.js:48 | Different numbers have different decimal forms. |
| Decimal.IntToStringInjective | azgallery/create.js:48 | Different integers (sign included) have different `${n}` forms. |
| DirNames.BaseName | azgallery/create.js:48-54 | The base name never starts with `-`. It is the decimal timestamp for a non-negative date, and `n` followed by the magnitude for a negative one. |
| DirNames.BaseNameInjective | azgallery/create.js:48-54 | Distinct timestamps give distinct base names: the `n` replacement cannot make a negative date collide with a positive one. |
| DirNames.CandidateInjective | azgallery/create.js:58-60 | The probe sequence `base`, `base-1`, `base-2`, ... never repeats a name. |
| DirNames.ProbesBounded | azgallery/create.js:58-60 | Pigeonhole: if the first `n` candidates are all taken, the listing has at least `n` entries, so the loop stops within `|subDirs| + 1` probes. |
| DirNames.Probe | azgallery/create.js:55-61 | The while loop from probe `k` on returns the index of the first candidate not in the listing; every earlier candidate is taken. |
| DirNames.MakeDirName | azgallery/create.js:46-62 | The name is not in the listing and has no leading `-`. It is the base name when that is free, and otherwise `base-k` for the least `k ≥ 1` whose name is free, with `k ≤ |subDirs|`. |
| DirNames.MakeDirNameIsFirstFree | srcs/create.js:41-57 | The name is the first free candidate in probe order; the older copy of the function is the same code. |
| DirNames.FirstFreeUnique | azgallery/create.js:55-61 | At most one name is the first free candidate, so the choice is determined by the timestamp and the listing. |
| DirNames.DistinctTimestampsDistinctNames | azgallery/create.js:46-62 | Two different timestamps whose base names are both free get different directory names. |
| Resize.RoundDiv | azgallery/create.js:73 | `Math.round(p / q)` is the integer nearest `p / q`, halves rounded up. |
| Resize.RoundDivUnique | azgallery/create.js:73 | Exactly one integer is nearest in that sense, so the rounding is characterised completely. |
| Resize.RoundDivAtMost | azgallery/create.js:72-77 | A quotient at most `m` rounds to at most `m`. |
| Resize.RoundDivExact | azgallery/create.js:73 | An exact quotient rounds to itself. |
| Resize.Upright | azgallery/create.js:68-70 | Applying the EXIF orientation keeps the picture's two edges; at most it exchanges them. |
| Resize.ResizeDims | azgallery/create.js:64-78 | After the swap, a landscape picture gets width `maxEdge` and the nearest height to scale. Any other picture gets height `maxEdge` and the nearest width to scale. Neither edge exceeds `maxEdge`. |
| Resize.ResizeKeepsShape | azgallery/create.js:72-78 | Landscape stays landscape and portrait stays portrait after scaling. |
| Resize.ResizeSquare | azgallery/create.js:75-78 | A square picture becomes `maxEdge` by `maxEdge` under every orientation tag. |
| Resize.ResizeSidewaysAsUpright | azgallery/create.js:68-78 | A picture stored sideways (orientation 5 and above) gets the same target as the same picture stored upright with its edges exchanged. |
| Resize.ResizeIdempotent | azgallery/create.js:79-86 | Resizing a transcoded output again (rotation applied, orientation dropped) leaves its size unchanged, provided both edges are positive. |
| Resize.ThinPictureLosesShortEdge | azgallery/create.js:72-74 | A landscape picture whose width exceeds twice its height times `maxEdge` gets height 0. The code has no lower bound of 1 pixel. |
| Resize.ThinPictureExamples | srcs/create.js:67-74 | Concrete cases: 4000×1 at 1800 gives 1800×0, and 1×3000 at 1280 gives 0×1280. |
| Ingest.FileName | azgallery/create.js:104 | Every stored image name ends in `.jpg`; under the current naming it is `<dir>-<i+1>.jpg`, in `srcs/` it is `<i+1>.jpg`. |
| Ingest.FileNameInjective | srcs/create.js:92 | Different positions give different file names under both namings, so no image overwrites another. |
| Ingest.PrefixedNamesAcrossAlbums | azgallery/create.js:103-104 | A `<dir>-<i+1>.jpg` name determines both its album and its position, so images downloaded from different albums never share a name. |
| Ingest.PlainNamesCollideAcrossAlbums | srcs/create.js:92 | The older `<i+1>.jpg` naming gives the first image of two different albums the same name `1.jpg`. |
| Ingest.FileNames | azgallery/create.js:102-114 | One name per source image, in input order, and no two images of an album share a file name. |
| Ingest.PutImage | azgallery/create.js:64-87 | One image step succeeds exactly when it is not faulted, the source is readable, and, when compressing, the source decodes and `ResizeDims` gives it two positive edges (the image library rejects a 0-pixel `resize`). A compressed image is a transcode to `ResizeDims`; otherwise it is a byte copy of the source. |
| Ingest.PutImages | azgallery/create.js:102-114 | `Promise.all` over the images succeeds exactly when every image succeeds. The result then holds one stored file per image, in image order, each that image's content. |
| Ingest.AlbumFiles | azgallery/create.js:102-114 | The album directory holds exactly one file per image, under that image's name, with that image's stored content. |
| Ingest.MakeRecord | azgallery/create.js:115-123 | The record names its own directory, keeps the draft's date and text, and lists one `.jpg` file per drafted image, no two alike; authors and tags are null. |
| Ingest.ChosenName | azgallery/create.js:90-97 | With a successful listing the chosen directory name is not listed. After a failed listing the gallery counts as empty, so the name is the bare base name of the date, whether or not that directory exists. |
| Ingest.WriteAlbumAsWritten | azgallery/create.js:89-136 | As written: the album is written exactly when every step succeeds and the chosen name was free. It is then new, carries the drafted record and holds exactly its images, with every other album unchanged. On any failure, including `mkdir` meeting an existing directory, the chosen path is removed. |
| Ingest.WriteAlbum | azgallery/create.js:89-136 | Corrected rollback: the written case is the same as the as-written version. A failed call leaves the store exactly as it was. |
| Ingest.CreateAsWritten | azgallery/create.js:177-183 | As written: a draft with no images and no text is skipped and changes nothing. Any other draft is written as drafted exactly when every step of `writeAlbum` succeeds; otherwise the chosen path is removed. |
| Ingest.Create | azgallery/create.js:177-183 | Over the corrected rollback: a draft with no images and no text is skipped. Any other draft is written as drafted exactly when every step of `writeAlbum` succeeds; otherwise the store is left unchanged. |
| Ingest.AsWrittenAgreesUnlessNameTaken | azgallery/create.js:97-101 | The two rollbacks of `writeAlbum` differ only when the chosen name already exists in the store. |
| Ingest.CreateAgreesUnlessNameTaken | azgallery/create.js:177-183 | The same for `create`: as written and corrected agree whenever the chosen name is not in the store. |
| Ingest.FaithfulListingAgrees | azgallery/create.js:90-97 | With a successful listing that names every existing album, the chosen name is free and both rollbacks agree. |
| Ingest.RollbackDeletesExistingAlbum | azgallery/create.js:131-135 | Counterexample: after a failed listing, the draft dated 1000 meets an existing album `1000`. The as-written `writeAlbum` and `create` delete that album; the corrected versions keep it. |
| Ingest.LegacyCopiesVerbatim | srcs/create.js:91-100 | The older `create` passes no options, so every stored image is a byte copy of its source. |
| Ingest.CreatePreservesWellFormed | azgallery/create.js:115-130 | If every album's metadata names its own directory and lists only existing files, that stays true after `create`. |
| Sorting.Insert | azgallery/build.js:30-32 | Insertion adds exactly the one element: one more element, the same multiset plus `x`. |
| Sorting.SortNewestFirst | azgallery/build.js:30-32 | The sort is a permutation of its input. |
| Sorting.InsertNewestFirst | azgallery/build.js:30-32 | Insertion keeps a newest-first sequence newest first. |
| Sorting.InsertWithKey | azgallery/build.js:30-32 | Insertion places the new element after every element with an equal key. |
| Sorting.SortIsStable | azgallery/build.js:29-32 | The result is newest first, and for each timestamp the albums sharing it keep their listing order. |
| Sorting.StableSortUnique | azgallery/build.js:29-32 | Two newest-first arrangements that keep each key's elements in the same order are equal. |
| Sorting.SortNewestFirstCharacterised | azgallery/build.js:29-32 | A sequence is the stable newest-first order of the input exactly when it equals the sort's result (both directions). |
| Pagination.Chunks | azgallery/build.js:36-49 | Reference definition of the pages: the first `p` albums, then the rest cut the same way; never zero pages. |
| Pagination.ChunksFlatten | azgallery/build.js:36-49 | The pages concatenate back to the input: no album is lost, repeated or moved. |
| Pagination.ChunksShape | azgallery/build.js:40-48 | Every page but the last is full, and the last holds 1 to `p` albums. A size that does not cut the input (off, negative, or at least the album count) gives one page. |
| Pagination.ChunksCount | azgallery/build.js:36-49 | With a positive page size, no albums give one page. Otherwise the page count is the least count whose pages hold every album: `ceil(n / p)`. |
| Pagination.ChunksSnoc | azgallery/build.js:40-45 | One more album either fills the last page or opens a new page. |
| Pagination.Paginate | azgallery/build.js:36-49 | The loop produces exactly the reference chunks, at least one page, whose concatenation is the input. |
| Pagination.PagesForSetting | azgallery/build.js:37 | `perPage \|\| albums.length`: an absent, zero or negative setting, or one at least the album count, puts every album on one page. A setting between 1 and the album count gives at least two pages, all full but the last, which holds 1 to `perPage` albums. |
| Pagination.NoAlbumsOnePage | azgallery/build.js:47 | No albums give exactly one empty page under every setting. |
| Pagination.UnpaginatedOnePage | azgallery/build.js:37 | With pagination off, all albums sit on one page. |
| Pagination.PageFileName | azgallery/build.js:51-53 | Index 0 and only index 0 names `index.html`. Any other index gives `index-<digits>.html`, where the digits read back as the page number `idx + 1` and have no leading zero, so the name is exactly `index-${idx + 1}.html`. |
| Pagination.PageFileNameInjective | azgallery/build.js:51-53 | Distinct pages are written to distinct files. |
| Pagination.LegacyPageFileName | build.js:48-50 | The root script's truthiness test names every page exactly as the later `idx === 0` test does. |
| PosixPath.SplitOnSep | azgallery/utils.js:54 | Splitting at `/` gives at least one piece, none containing `/`. |
| PosixPath.JoinSplit | azgallery/utils.js:54 | Splitting at `/` and joining with `/` gives the path back. |
| PosixPath.SplitJoin | azgallery/utils.js:54 | Joining separator-free pieces and splitting again gives the pieces back. |
| PosixPath.Normalize | azgallery/utils.js:54 | Normalising never gives the empty path, and keeps a leading and a trailing separator. |
| PosixPath.NormalizeSegments | azgallery/utils.js:54 | Normalising keeps the segments a path names. |
| PosixPath.NormalizeByComponents | azgallery/utils.js:54 | Two paths that agree on absoluteness, trailing separator and segments normalise alike. |
| PosixPath.RenderIsNormal | azgallery/utils.js:54 | A path rendered from valid segments is already normal. |
| PosixPath.NormalizeIdempotent | azgallery/utils.js:54 | Normalising twice is normalising once. |
| PosixPath.Join | azgallery/utils.js:54 | `join` never gives the empty path. |
| PosixPath.JoinSegments | azgallery/utils.js:54 | The segments of a join are the segments of its arguments, in argument order. |
| PosixPath.JoinOmits | azgallery/utils.js:54 | `join` introduces no character other than `/` and `.`. |
| PosixPath.Basename | azgallery/utils.js:43 | A basename contains no separator. |
| PosixPath.BasenameChild | azgallery/utils.js:43 | The basename of `d/name` is `name`. |
| PosixPath.BasenameTrailingSep | azgallery/utils.js:43 | A trailing separator does not change the basename. |
| PosixPath.Dirname | azgallery/utils.js:44 | A dirname is never empty. |
| PosixPath.DirnameOfName | azgallery/utils.js:44 | A bare name lives in `.`. |
| PosixPath.DirnameChild | azgallery/utils.js:44 | The directory of `d/name` names the segments of `d`. |
| SitePath.ReplaceBackslashes | azgallery/utils.js:30-31 | Every `\` becomes `/` and every other character is kept, so no backslash remains. |
| SitePath.NormalizeRoot | azgallery/utils.js:28-37 | The captured root has no backslash, is absolute, ends in `/`, and is `/` when no root is given. |
| SitePath.NormalizeRootIdempotent | azgallery/utils.js:31-37 | Passing a captured root through the same steps again changes nothing. |
| SitePath.NextMark | azgallery/utils.js:41 | Finds the first `?` or `#` at or after a position: nothing before it is a mark. |
| SitePath.SplitBeforeMarks | azgallery/utils.js:41 | `split(/(?=[?#])/)`: the pieces concatenate to the input. Every piece after the first starts with its only mark. A non-empty input gives a non-empty first piece. |
| SitePath.SplitBeforeMarksAppend | azgallery/utils.js:41 | Plain text followed by a query splits into the text, then the query's own pieces. |
| SitePath.PathArgs | azgallery/utils.js:41-47 | Only the first piece is rewritten, and it has no backslash left; the query and fragment pieces pass through unchanged. |
| SitePath.CollapseIndex | azgallery/utils.js:43-47 | A path to `index.html` or `index.htm` becomes its directory: the same segments, now with a trailing `/`. Any other path is kept as it is. |
| SitePath.QueryUntouched | azgallery/utils.js:40-42 | Backslash replacement and index collapsing never touch the text after the first `?` or `#`. |
| SitePath.GetPath | azgallery/utils.js:35-36 | Every link `getPath` returns is absolute. |
| SitePath.GetPathEmpty | azgallery/utils.js:38 | The link for the empty path is the normalised root, and the root itself when it is already normal. |
| SitePath.GetPathUnderRoot | azgallery/utils.js:53-54 | With a normal root and no `..` segment in the root or the path, every link starts with the root, or is the root without its trailing `/`. |
| SitePath.GetPathPlain | azgallery/utils.js:41-54 | The link for a plain path plus an optional query is `join(root, collapsed path, query pieces)`. |
| SitePath.IndexCollapse | azgallery/utils.js:43-47 | A link to `dir/index.html` (or `.htm`), with or without a query, is the same link as `dir/`. |
| SitePath.SameLinkByComponents | azgallery/utils.js:53-54 | Two plain paths whose collapsed forms name the same segments and trailing separator give the same link. |
| Timeline.LoadRecord | azgallery/build.js:17-22 | Reading one `index.json` succeeds exactly when the directory exists, the file parses, and `images` is not null. It then yields that record. |
| Timeline.LoadRecords | azgallery/build.js:17-20 | The load succeeds exactly when every listed record loads. The records then come back in listing order. |
| Timeline.ImagePath | srcs/build.js:21-25 | An image link names the gallery directory, the album and the image, in that order (the older code puts `rootDir` in front), and a plain image name is its basename. |
| Timeline.ToAlbum | azgallery/build.js:20-28 | The rewrite keeps directory, date and text. Each image, in order, becomes a link inside the album's directory under the gallery that ends in the stored file name. The album page path `join(albumDir, dir, "/")` is recorded when album pages exist. |
| Timeline.LoadUnsorted | azgallery/build.js:8-28 | The load fails exactly when the root script's listing fails or some listed record does not load. Otherwise it yields one rewritten album per listed directory, in listing order. |
| Timeline.ReadGalleryAlbums | azgallery/build.js:8-34 | Loading succeeds exactly when the unsorted load does. The result is a permutation of the loaded albums, newest first, with equal timestamps kept in listing order. |
| Timeline.LoadCurrent | azgallery/build.js:8-34 | A failed listing counts as an empty gallery, and any unloadable record fails the load. Otherwise every listed directory gives one album, newest first, each linking to its page under `albumDir`. |
| Timeline.LoadLegacy | srcs/build.js:4-33 | The older loads fail exactly on an unloadable record, and the root script (build.js:6-31) also on a failed listing. Otherwise they give one album per listed directory, newest first, with no album page path. |
| Timeline.LoadedImagesRewritten | azgallery/build.js:20-28 | Every listed directory's record is loaded, and its rewritten album is on the timeline. |
| Timeline.ListingFailureLoadsNothing | azgallery/build.js:10-16 | After a failed listing, the root script's load fails and the later ones load no albums. |
| Timeline.LegacyGenerationsAgree | srcs/build.js:4-33 | The two older loaders agree whenever the listing succeeds. |
| Timeline.LegacySkipNeverFires | srcs/build.js:103-105 | The older skip rule never fires on a loaded album, because `images` went through `map` and is never null. Such albums are shown even when the current rule would skip them. |
| Timeline.SkipRuleEffects | azgallery/build.js:138-141 | One rule, three effects (lines 77, 139 and 240): an album with no images and no text is exactly one that no index page lists, that gives no Open Graph tags, and that gets no album page. |
| Timeline.ShownAlbums | azgallery/build.js:138-141 | An album is listed exactly when it is on the page and the rule shows it, and never more entries than albums. |
| Timeline.ShownAlbumsCounts | azgallery/build.js:138-141 | Each shown album is listed as many times as it occurs on the page, and a skipped one never. |
| Timeline.ShownAlbumsAppend | azgallery/build.js:138-141 | The listing of two runs of albums is the listing of the first, then of the second. With the counts, this fixes the entries as the shown albums in page order. |
| Timeline.AlbumTagsDecode | azgallery/build.js:81-93 | Reading the image and description tags back off an album's tags gives its images, in order, and its text. |
| OpenGraph.ImageTagsDecode | azgallery/build.js:81-87 | Reading the image tags back gives the images, in order. |
| Timeline.OgTags | azgallery/build.js:75-95 | A page has no tags exactly when every album on it is skipped. Otherwise it has the tags of the first album not skipped. |
| Timeline.OgTagsFromFirstShown | azgallery/build.js:75-95 | A page's Open Graph tags are those of its first listed album, or none at all. |
| Timeline.NavMarksOne | azgallery/build.js:202-211 | An in-range page index marks its own link and no other; an out-of-range one marks none. |
| Timeline.LegacyNav | srcs/build.js:161-165 | The older nav joins `rootDir` with each page's file, numbered from 1, with nothing marked. |
| Timeline.AlbumLinkReachesPage | azgallery/build.js:239-248 | For a plain directory name, the timeline link to an album (line 26's `path`) equals the link to the page `writeAlbumPage` writes. |
| Timeline.FirstPageLinkIsHome | azgallery/build.js:51-53 | The nav link to the first page is the same as the title's `getPath()` link. |
| Timeline.AlbumPages | azgallery/build.js:239-249 | One album page per shown album, in timeline order, at its document path, with that album's own tags. |
| Timeline.SitePlan | azgallery/build.js:293-312 | The index pages are the `paginate` chunks of the timeline for the configured `perPage`: at least one page, holding every album exactly once, in timeline order. Page `i` is `getPageFileName(i)`, files are distinct, each nav marks its own page, and each page lists the albums the rule shows. An album gets a page exactly when it is on the timeline and not skipped, at `join(albumDir, dir, "index.html")`. |
| Timeline.BuildSite | azgallery/build.js:293-312 | The build fails exactly when a listed record does not load. Otherwise its index pages hold one album per listed directory, newest first, and it is the site plan of the loaded timeline. |
| Timeline.IndexPagesFiles | azgallery/build.js:251-256 | Page files are `getPageFileName(i)` and pairwise distinct, and each page's nav marks that page. |
| Timeline.AlbumPagesMatchShown | azgallery/build.js:239-249 | An album of the timeline gets a page exactly when it is not skipped, and every page sits at `join(albumDir, dir, "index.html")`. |
| Timeline.IndexPagesAlbums | azgallery/build.js:251-256 | Reading the albums back off the index pages gives the chunks, page by page. |
| Timeline.EmptyGalleryOnePage | azgallery/build.js:36-49 | An empty gallery, or a failed listing, still builds exactly one empty `index.html` (given that `docDir` exists) whose nav marks its only page. |
| Timeline.LegacyPlan | srcs/build.js:54-186 | The older index pages: at least one, page `i` at `getPageFileName(i)` with the `i`-th chunk and the unmarked older nav. Together they hold every album once, in timeline order, and each page lists all its albums. |
| Timeline.BuildLegacy | srcs/build.js:207-213 | The older build fails exactly when its load does. Otherwise its pages hold one album per listed directory, newest first, each page listing all of its albums. |
| Timeline.LegacyShowsAll | srcs/build.js:102-105 | Every page of the older builds lists all its albums. |
| Timeline.LegacyListingFailureOnePage | srcs/build.js:4-11 | After a failed listing, `srcs/` builds one empty page; the root script (build.js:7-9) fails instead. |
| RoundTrip.DraftedAlbum | azgallery/build.js:20-28 | The album `build` makes of a written draft: its name, date, text, one image path per drafted image, and its page path. |
| RoundTrip.WrittenAlbumLoads | azgallery/create.js:115-130 | Write then read: after a successful `create`, the new directory loads as the drafted album, and is not skipped. Its image paths point, in order, at the files written for the draft's images. Every other directory loads exactly as before. |
| RoundTrip.WrittenAlbumIsBuilt | azgallery/build.js:293-304 | If a later build lists the new directory and loads, the drafted album is on its timeline and gets an album page. |
| RoundTrip.MadeNamesArePlain | azgallery/create.js:46-62 | Every generated directory name is one plain path segment: no separator, no backslash, no `?` or `#`, not `.`, and not an index document. |
| RoundTrip.MadeAlbumLinkReachesPage | azgallery/build.js:26 | For every generated directory name, the timeline link reaches the album page. |

## Left out

- File-system I/O, `sharp`, `readline` prompts, the logger, and configuration loading. The listing, the source files, decoding, and step failures are parameters (`Ingest.Env`, the `listing` argument of the loaders).
- Concurrency: `Promise.all` is modelled as sequential. When several steps fail, the model reports the first failing one in order; the engine may report another.
- Date parsing and `Date.now()`: the draft's date is an input.
- HTML rendering, `Intl.DateTimeFormat` grouping by day, and the title, subtitle and info strings. The model keeps only the page's structure: albums, entries, nav and Open Graph tags.
- `encodeURI` (`getPath` is modelled with `skipEncode` true) and `getURLFn` (`new URL`).
- `..` segments: `PosixPath.Normalize` keeps them as plain segments, while node's `path.posix.normalize` removes each one together with the segment before it. Names read from `index.json` can contain one. The model's links are therefore exact only for `..`-free paths.
- SitePath.GetPathUnderRoot: requires a `..`-free root and `..`-free path pieces, because with `..` node's `join` can climb out of the root.
- Timeline.ImagePath: the basename clause excludes an image name `..`, for the same reason.
- Ingest.WriteAlbumAsWritten: the rollback's recursive forced `rm` (azgallery/create.js:134, srcs/create.js:117) is modelled as infallible. If it fails, `writeAlbum` rejects with that error and can leave a partly written directory behind.
- Ingest.WriteAlbum: the same infallible rollback `rm` as above.
- Ingest.CreateAsWritten: the same infallible rollback `rm` as above.
- Ingest.Create: the same infallible rollback `rm` as above.
- Resize.Upright: the contract says only that the two edges are kept, possibly exchanged. Which orientations exchange them is stated by Resize.ResizeSidewaysAsUpright and Resize.ResizeSquare.
- SitePath.GetPath: its own contract states only that every link is absolute. The exact link is stated by SitePath.GetPathPlain, SitePath.GetPathEmpty and SitePath.IndexCollapse, and its place under the root by SitePath.GetPathUnderRoot.
- The deletion of earlier `index*` outputs and of the album-page directory before a build, and the per-album `mkdir`. A gallery where two records name the same `dir` makes that `mkdir` fail; this is not modelled. The deletion step also lists `docDir` itself (azgallery/build.js:282-291), and that listing rejects when `docDir` is missing, so the real build fails there. Timeline.EmptyGalleryOnePage and the fail-soft gallery listing therefore hold only when `docDir` exists.
- The command-line front end (`azgallery/index.js`) and the browser script `docs/js/index.js`.
- Resize.RoundDiv: the source rounds a floating-point quotient. The model uses exact rational rounding, which agrees for the image sizes that occur; floating-point error is not modelled.
- Resize.ResizeDims: the dimensions can have a 0-pixel edge (see ThinPictureLosesShortEdge). The library rejects such a `resize`, and `Ingest.PutImage` models that as a failed image step, which rolls the album back.
- Resize.ResizeIdempotent: requires both edges of the first result to be positive. A 0-pixel output is outside what the library accepts.
- The older `compressJPG` (srcs/create.js:76) does not call `.rotate()`. The older `create` never passes `compress`, so that path is never taken; `Ingest.LegacyOptions` fixes `compress` to false.
- srcs/build.js as written crashes before writing anything. Line 202 calls `.filter` on the Promise from `readdir`, and the module-level functions read a `config` that is only bound inside `build`. The model gives those functions the settings they evidently expect (`Timeline.LegacySettings`).
- Timeline.LegacySettings: `rootDir` is a string in the older generations. They join it into every link and take no default for it.
- Sorting.SortNewestFirst: the comparator `b.created - a.created` is modelled on unbounded integers. Timestamps beyond 2^53, where the subtraction would lose precision, are not modelled.
- Timeline.Settings: configuration values of other JSON types are not modelled. A fractional or string `perPage` never equals a page length at azgallery/build.js:41, so the source writes a single page, and `rootDir: null` makes azgallery/utils.js:31 throw. The model takes `perPage` as an integer and reads an absent `rootDir` as `/`.
- Non-numeric or non-integer `created` values, and records whose fields have other JSON types, are not modelled. A record is modelled as the typed `Store.Record`.

## Findings

| source | as written | input that shows it | evidently intended | confidence | as-written member | corrected member |
|---|---|---|---|---|---|---|
| azgallery/create.js:100-135 | When `mkdir` fails because the chosen directory already exists, the catch block still runs the recursive forced `rm` of that path. This can happen because a failed listing was treated as an empty gallery (lines 91-96). The result deletes an existing album. srcs/create.js:89-118 does the same. | The gallery holds album `1000`, the listing fails, and a draft dated 1000 is created. | Roll back only a directory this call created: a failed `mkdir` leaves the gallery unchanged. | not executed | Ingest.WriteAlbumAsWritten | Ingest.WriteAlbum |
| azgallery/create.js:177-183 | `create` hands every non-empty draft to the `writeAlbum` above, so it inherits the same deletion. | The same gallery, listing failure and draft as in the row above. | A failed `create` leaves the gallery unchanged. | not executed | Ingest.CreateAsWritten | Ingest.Create |
