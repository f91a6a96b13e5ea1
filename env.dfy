/**
 * The outside world that the template cache talks to: file paths, decoded
 * images and the filesystem. Only what the cache observes is modelled: whether
 * a path exists, what decoding it yields, and whether an image is empty.
 */
module Env {

  /** A resolved filesystem path (a root directory, or a root joined with a filename). */
  type Path = string

  /** A decoded image buffer. Its pixels are kept only so that images can differ;
      the cache looks at nothing but emptiness. */
  datatype Image = Image(pixels: seq<bv8>) {
    predicate IsEmpty() {
      |pixels| == 0
    }
  }

  /** The empty image, returned for a path that does not exist. */
  const Blank: Image := Image([])

  /** The filesystem as the cache sees it at one call: an existence test and an
      image decoder that yields an empty image for any file it cannot decode. */
  datatype Disk = Disk(present: Path -> bool, decode: Path -> Image)

  /** Joining a root directory and a relative filename into a path. No property
      of the model depends on how the two are combined. */
  function Join(root: Path, filename: string): Path {
    root + "/" + filename
  }
}
