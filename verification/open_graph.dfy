/**
  The Open Graph tags of a page head (`og:image`, `og:description`) and how a reader
  of the head gets the announced images and description back.
 */
module OpenGraph {
  import opened Wrappers

  /** A tag of a page head; an image tag carries the image's link. */
  datatype OgTag = OgImage(image: string) | OgDescription(text: string)

  /** One image tag per image, in order. */
  function ImageTags(images: seq<string>): (tags: seq<OgTag>)
    ensures |tags| == |images|
    ensures forall i :: 0 <= i < |images| ==> tags[i] == OgImage(images[i])
  {
    if images == [] then [] else [OgImage(images[0])] + ImageTags(images[1..])
  }

  /** The images a list of tags announces, in order. */
  function TagImages(tags: seq<OgTag>): seq<string>
  {
    if tags == [] then []
    else (if tags[0].OgImage? then [tags[0].image] else []) + TagImages(tags[1..])
  }

  /** The description a list of tags ends with, if any. */
  function TagText(tags: seq<OgTag>): Option<string>
  {
    if tags != [] && tags[|tags| - 1].OgDescription? then Some(tags[|tags| - 1].text) else None
  }

  lemma {:induction false} TagImagesAppend(x: seq<OgTag>, y: seq<OgTag>)
    ensures TagImages(x + y) == TagImages(x) + TagImages(y)
  {
    if x == [] {
      assert x + y == y;
    } else {
      assert (x + y)[1..] == x[1..] + y;
      TagImagesAppend(x[1..], y);
    }
  }

  lemma {:induction false} ImageTagsDecode(images: seq<string>)
    ensures TagImages(ImageTags(images)) == images
  {
    if images != [] {
      ImageTagsDecode(images[1..]);
    }
  }
}
