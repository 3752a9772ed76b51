/**
  The gallery directory as an abstract store: one entry per sub-directory, holding the
  image files and the album's `index.json` metadata.
 */
module Store {
  import opened Wrappers
  import opened Resize

  /** The metadata object `writeAlbum` serialises to `index.json` and `build` parses back. */
  datatype Record = Record(
    dir: string,
    created: int,
    layout: string,
    text: Option<string>,
    images: Option<seq<string>>,
    authors: Option<seq<string>>,
    tags: Option<seq<string>>)

  /** What reading and parsing `<album>/index.json` gives. */
  datatype IndexFile = Missing | Unparsable | Parsed(record: Record)

  /** An image file: a byte copy of the source, or a transcoded JPEG of the given size. */
  datatype StoredFile = Copied(content: seq<bv8>) | Transcoded(size: Dims)

  datatype AlbumDir = AlbumDir(files: map<string, StoredFile>, index: IndexFile)

  /** The gallery directory, keyed by sub-directory name. */
  type Gallery = map<string, AlbumDir>

  /**
    A well-formed album directory: its metadata parses, names the directory it lives in,
    and lists only images that exist in it.
   */
  predicate WellFormedAlbum(name: string, a: AlbumDir)
  {
    a.index.Parsed? && a.index.record.dir == name && a.index.record.images.Some?
    && forall img :: img in a.index.record.images.value ==> img in a.files
  }

  predicate WellFormed(g: Gallery)
  {
    forall name :: name in g ==> WellFormedAlbum(name, g[name])
  }
}
