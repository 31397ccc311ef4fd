/** Single-channel raster images, as the imaging library holds them in mode "L",
    and the contents of a file as the image decoder sees it. */
module Images {

  /** One 8-bit luminance sample. */
  type byte = x: int | 0 <= x < 256

  /** A raster of `height` rows of `width` pixels; rows[y][x] is column x of row y,
      row 0 is the top row. */
  datatype Raster = Raster(width: nat, height: nat, rows: seq<seq<byte>>) {
    predicate Wf() {
      |rows| == height && forall y :: 0 <= y < |rows| ==> |rows[y]| == width
    }
  }

  /** A well-formed raster: every row has exactly `width` pixels. */
  type Image = r: Raster | r.Wf() witness Raster(0, 0, [])

  /** What opening a file as an image gives: a decoded image, or a failure
      (an unknown format, a corrupt file, a directory). */
  datatype FileContent = ImageFile(image: Image) | OtherFile

  /** The image of the given size whose pixel at column x, row y is f(x, y). */
  function FromPixels(width: nat, height: nat, f: (nat, nat) -> byte): (img: Image)
    ensures img.width == width && img.height == height
    ensures forall x: nat, y: nat :: x < width && y < height ==> img.rows[y][x] == f(x, y)
  {
    Raster(width, height, seq(height, (y: int) requires 0 <= y => seq(width, (x: int) requires 0 <= x => f(x, y))))
  }

  /** Two images with the same size and the same pixels are the same image. */
  lemma SamePixels(a: Image, b: Image)
    requires a.width == b.width && a.height == b.height
    requires forall x: nat, y: nat :: x < a.width && y < a.height ==> a.rows[y][x] == b.rows[y][x]
    ensures a == b
  {
    forall y | 0 <= y < a.height
      ensures a.rows[y] == b.rows[y]
    {
      assert forall x :: 0 <= x < a.width ==> a.rows[y][x] == b.rows[y][x];
    }
  }
}
