/** Normalisation of uploaded pictures for the panel (convert.py): 4-level
    quantisation, letterboxing onto a white 480x800 canvas, and the ingest loop
    that converts every upload and deletes the converted sources. */
module Convert {
  import opened Wrappers
  import opened Images
  import opened PathNames

  const TargetWidth: nat := 480
  const TargetHeight: nat := 800
  const White: byte := 255

  // ---------------------------------------------------------------------------
  // Quantiser

  /** The four luminance levels the panel shows. */
  predicate IsLevel(p: int) {
    p == 0 || p == 85 || p == 170 || p == 255
  }

  /** Maps a pixel to a level: four bins of width 64, bin k giving level 85 * k. */
  function Quantize(pixel: byte): (level: byte)
    ensures IsLevel(level)
    ensures level == 85 * (pixel / 64)
  {
    if pixel < 64 then 0
    else if pixel < 128 then 85
    else if pixel < 192 then 170
    else 255
  }

  lemma QuantizeMonotonic(p: byte, q: byte)
    requires p <= q
    ensures Quantize(p) <= Quantize(q)
  {
  }

  lemma QuantizeIdempotent(p: byte)
    ensures Quantize(Quantize(p)) == Quantize(p)
  {
  }

  /** The levels are exactly the pixels that quantising leaves alone. */
  lemma QuantizeFixesExactlyLevels(p: byte)
    ensures Quantize(p) == p <==> IsLevel(p)
  {
  }

  /** The bin edges: 63 | 64, 127 | 128, 191 | 192. */
  lemma QuantizeThresholds()
    ensures Quantize(0) == 0 && Quantize(63) == 0
    ensures Quantize(64) == 85 && Quantize(127) == 85
    ensures Quantize(128) == 170 && Quantize(191) == 170
    ensures Quantize(192) == 255 && Quantize(255) == 255
  {
  }

  // ---------------------------------------------------------------------------
  // Letterbox geometry, in exact integer arithmetic

  /** The scale min(480 / w, 800 / h) is the width's one: 480 / w <= 800 / h. */
  predicate WidthLimited(w: nat, h: nat) {
    TargetWidth * h <= TargetHeight * w
  }

  lemma FloorDiv(a: nat, b: nat)
    requires b > 0
    ensures (a / b) * b <= a < (a / b + 1) * b
  {
  }

  lemma CancelFactor(a: nat, b: nat, c: nat)
    requires b > 0 && a * b <= c * b
    ensures a <= c
  {
  }

  /** Size of the resized picture: both sides multiplied by the smaller of the two
      scales and truncated.  The limiting side gets exactly its target and the
      other side does not exceed its own. */
  function FitSize(w: nat, h: nat): (size: (nat, nat))
    requires w > 0 && h > 0
    ensures size.0 <= TargetWidth && size.1 <= TargetHeight
    ensures WidthLimited(w, h) ==> size.0 == TargetWidth
    ensures !WidthLimited(w, h) ==> size.1 == TargetHeight
  {
    if WidthLimited(w, h) then
      var newHeight := h * TargetWidth / w;
      FloorDiv(h * TargetWidth, w);
      CancelFactor(newHeight, w, TargetHeight);
      (TargetWidth, newHeight)
    else
      var newWidth := w * TargetHeight / h;
      FloorDiv(w * TargetHeight, h);
      CancelFactor(newWidth, h, TargetWidth);
      (newWidth, TargetHeight)
  }

  /** The side that is not limiting is truncated: it is the largest size that
      does not stretch the picture beyond its aspect ratio. */
  lemma FitSizeTruncates(w: nat, h: nat)
    requires w > 0 && h > 0
    ensures var size := FitSize(w, h);
            && (WidthLimited(w, h) ==> size.1 * w <= h * TargetWidth < (size.1 + 1) * w)
            && (!WidthLimited(w, h) ==> size.0 * h <= w * TargetHeight < (size.0 + 1) * h)
  {
    if WidthLimited(w, h) {
      FloorDiv(h * TargetWidth, w);
    } else {
      FloorDiv(w * TargetHeight, h);
    }
  }

  /** Top-left corner of the centred picture.  It fits on the canvas, and the
      right (bottom) margin is the left (top) one or one pixel more. */
  function Offsets(width: nat, height: nat): (offset: (nat, nat))
    requires width <= TargetWidth && height <= TargetHeight
    ensures offset.0 + width <= TargetWidth && offset.1 + height <= TargetHeight
    ensures 0 <= (TargetWidth - width - offset.0) - offset.0 <= 1
    ensures 0 <= (TargetHeight - height - offset.1) - offset.1 <= 1
  {
    ((TargetWidth - width) / 2, (TargetHeight - height) / 2)
  }

  /** A 480x800 picture is neither scaled nor moved. */
  lemma FitSizeOfTarget()
    ensures FitSize(TargetWidth, TargetHeight) == (TargetWidth, TargetHeight)
    ensures Offsets(TargetWidth, TargetHeight) == (0, 0)
  {
  }

  /** A 1000x500 picture is width-limited: it becomes 480x240 with 280 white rows
      above and below. */
  lemma FitSizeOfLandscape()
    ensures FitSize(1000, 500) == (480, 240)
    ensures Offsets(480, 240) == (0, 280)
  {
  }

  // ---------------------------------------------------------------------------
  // The normalised picture, as values

  /** The resampling filter followed by the luminance conversion: the luminance of
      pixel (x, y) of the picture resized to width x height.  It stands for the
      imaging library's Lanczos filter, which is not part of this model. */
  type Sampler = (Image, nat, nat, nat, nat) -> byte

  /** The picture resized to exactly width x height. */
  function Resize(src: Image, width: nat, height: nat, sample: Sampler): (r: Image)
    ensures r.width == width && r.height == height
  {
    FromPixels(width, height, (x: nat, y: nat) => sample(src, width, height, x, y))
  }

  /** Every pixel replaced by its level. */
  function QuantizeImage(img: Image): (r: Image)
    ensures r.width == img.width && r.height == img.height
    ensures forall x: nat, y: nat :: x < r.width && y < r.height ==> r.rows[y][x] == Quantize(img.rows[y][x])
    ensures forall x: nat, y: nat :: x < r.width && y < r.height ==> IsLevel(r.rows[y][x])
  {
    FromPixels(img.width, img.height,
               (x: nat, y: nat) => if y < |img.rows| && x < |img.rows[y]| then Quantize(img.rows[y][x]) else 0)
  }

  /** img pasted with its top-left corner at (left, top); what falls outside the
      canvas is dropped. */
  function Paste(canvas: Image, img: Image, left: nat, top: nat): (r: Image)
    ensures r.width == canvas.width && r.height == canvas.height
  {
    FromPixels(canvas.width, canvas.height,
               (x: nat, y: nat) =>
                 if left <= x && top <= y && y - top < |img.rows| && x - left < |img.rows[y - top]|
                 then img.rows[y - top][x - left]
                 else if y < |canvas.rows| && x < |canvas.rows[y]| then canvas.rows[y][x]
                 else 0)
  }

  /** Image.new("L", (480, 800), 255): every pixel white. */
  function WhiteCanvas(): (r: Image)
    ensures r.width == TargetWidth && r.height == TargetHeight
    ensures forall x: nat, y: nat :: x < r.width && y < r.height ==> r.rows[y][x] == White
  {
    FromPixels(TargetWidth, TargetHeight, (x: nat, y: nat) => White)
  }

  /** convert_image as a value: None where it raises (a side of zero makes the
      scale divide by zero; a resized side of zero makes the resize fail).  It
      succeeds exactly for pictures that are not empty and are at most 480 times
      wider than tall and at most 800 times taller than wide, and then gives a
      480 x 800 picture of levels. */
  function Normalize(src: Image, sample: Sampler): (r: Option<Image>)
    ensures r.Some? <==>
              && src.width > 0 && src.height > 0
              && src.width <= 480 * src.height
              && src.height <= 800 * src.width
    ensures r.Some? ==> r.value.width == TargetWidth && r.value.height == TargetHeight
    ensures r.Some? ==> forall x: nat, y: nat :: x < TargetWidth && y < TargetHeight ==> IsLevel(r.value.rows[y][x])
  {
    if src.width == 0 || src.height == 0 then None
    else
      var size := FitSize(src.width, src.height);
      FitSizePositiveIff(src.width, src.height);
      if size.0 == 0 || size.1 == 0 then None
      else
        var offset := Offsets(size.0, size.1);
        Some(Paste(WhiteCanvas(), QuantizeImage(Resize(src, size.0, size.1, sample)), offset.0, offset.1))
  }

  /** Where the picture lands on the canvas. */
  predicate InPicture(src: Image, x: nat, y: nat)
    requires src.width > 0 && src.height > 0
  {
    var size := FitSize(src.width, src.height);
    var offset := Offsets(size.0, size.1);
    offset.0 <= x < offset.0 + size.0 && offset.1 <= y < offset.1 + size.1
  }

  /** The normalised picture is 480x800; outside the pasted rectangle every pixel
      is white, inside it every pixel is the level of the resized pixel; so every
      pixel is one of the four levels. */
  lemma NormalizedCanvas(src: Image, sample: Sampler, x: nat, y: nat)
    requires Normalize(src, sample).Some?
    requires x < TargetWidth && y < TargetHeight
    ensures var r := Normalize(src, sample).value;
            && r.width == TargetWidth && r.height == TargetHeight
            && (!InPicture(src, x, y) ==> r.rows[y][x] == White)
            && (InPicture(src, x, y) ==>
                  var size := FitSize(src.width, src.height);
                  var offset := Offsets(size.0, size.1);
                  r.rows[y][x] == Quantize(sample(src, size.0, size.1, x - offset.0, y - offset.1)))
            && IsLevel(r.rows[y][x])
  {
  }

  /** Neither resized side is zero exactly when the picture is at most 480 times
      wider than tall and at most 800 times taller than wide. */
  lemma FitSizePositiveIff(w: nat, h: nat)
    requires w > 0 && h > 0
    ensures FitSize(w, h).0 > 0 && FitSize(w, h).1 > 0 <==> w <= 480 * h && h <= 800 * w
  {
    FitSizeTruncates(w, h);
    if WidthLimited(w, h) {
      assert FitSize(w, h) == (480, h * 480 / w);
      assert h <= 800 * w;
    } else {
      assert FitSize(w, h) == (w * 800 / h, 800);
      assert w <= 480 * h;
    }
  }

  /** The resize of the imaging library returns a copy when the size does not change. */
  ghost predicate CopiesAtSameSize(sample: Sampler) {
    forall img: Image, x: nat, y: nat {:trigger sample(img, img.width, img.height, x, y)} ::
      x < img.width && y < img.height ==> sample(img, img.width, img.height, x, y) == img.rows[y][x]
  }

  /** Converting a converted picture again gives the same canvas. */
  lemma NormalizeIdempotent(src: Image, sample: Sampler)
    requires CopiesAtSameSize(sample)
    requires Normalize(src, sample).Some?
    ensures Normalize(Normalize(src, sample).value, sample) == Normalize(src, sample)
  {
    var r := Normalize(src, sample).value;
    FitSizeOfTarget();
    var again := Normalize(r, sample);
    assert again.Some?;
    forall x: nat, y: nat | x < TargetWidth && y < TargetHeight
      ensures again.value.rows[y][x] == r.rows[y][x]
    {
      NormalizedCanvas(src, sample, x, y);
      NormalizedCanvas(r, sample, x, y);
      assert InPicture(r, x, y);
      QuantizeFixesExactlyLevels(r.rows[y][x]);
    }
    SamePixels(again.value, r);
  }

  // ---------------------------------------------------------------------------
  // The conversion, in place on pixel arrays (a[y, x] is column x of row y)

  /** convert_to_grayscale_4level: every pixel replaced by its level, in place. */
  method ConvertToGrayscale4Level(img: array2<byte>)
    modifies img
    ensures forall y, x :: 0 <= y < img.Length0 && 0 <= x < img.Length1 ==>
              img[y, x] == Quantize(old(img[y, x]))
  {
    var y := 0;
    while y < img.Length0
      invariant 0 <= y <= img.Length0
      invariant forall j, i :: 0 <= j < y && 0 <= i < img.Length1 ==> img[j, i] == Quantize(old(img[j, i]))
      invariant forall j, i :: y <= j < img.Length0 && 0 <= i < img.Length1 ==> img[j, i] == old(img[j, i])
    {
      var x := 0;
      while x < img.Length1
        invariant 0 <= x <= img.Length1
        invariant forall j, i :: 0 <= j < y && 0 <= i < img.Length1 ==> img[j, i] == Quantize(old(img[j, i]))
        invariant forall i :: 0 <= i < x ==> img[y, i] == Quantize(old(img[y, i]))
        invariant forall j, i :: y <= j < img.Length0 && 0 <= i < img.Length1 && (j > y || i >= x) ==>
                    img[j, i] == old(img[j, i])
      {
        img[y, x] := Quantize(img[y, x]);
        x := x + 1;
      }
      y := y + 1;
    }
  }

  /** canvas.paste(img, (left, top)): the part of img that lies on the canvas
      overwrites it; everything else is left as it was. */
  method PasteInto(canvas: array2<byte>, img: array2<byte>, left: nat, top: nat)
    requires canvas != img
    modifies canvas
    ensures forall y, x :: 0 <= y < canvas.Length0 && 0 <= x < canvas.Length1 &&
                           top <= y < top + img.Length0 && left <= x < left + img.Length1 ==>
              canvas[y, x] == img[y - top, x - left]
    ensures forall y, x :: 0 <= y < canvas.Length0 && 0 <= x < canvas.Length1 &&
                           !(top <= y < top + img.Length0 && left <= x < left + img.Length1) ==>
              canvas[y, x] == old(canvas[y, x])
  {
    var y := 0;
    while y < img.Length0
      invariant 0 <= y <= img.Length0
      invariant forall j, i :: 0 <= j < canvas.Length0 && 0 <= i < canvas.Length1 ==>
                  canvas[j, i] == if top <= j < top + y && left <= i < left + img.Length1
                                  then img[j - top, i - left] else old(canvas[j, i])
    {
      var x := 0;
      while x < img.Length1
        invariant 0 <= x <= img.Length1
        invariant forall j, i :: 0 <= j < canvas.Length0 && 0 <= i < canvas.Length1 ==>
                    canvas[j, i] == if (top <= j < top + y && left <= i < left + img.Length1)
                                       || (j == top + y && left <= i < left + x)
                                    then img[j - top, i - left] else old(canvas[j, i])
      {
        if top + y < canvas.Length0 && left + x < canvas.Length1 {
          canvas[top + y, left + x] := img[y, x];
        }
        x := x + 1;
      }
      y := y + 1;
    }
  }

  /** The pixels of an array, as an image (what saving it records). */
  function Snapshot(a: array2<byte>): (img: Image)
    reads a
    ensures img.width == a.Length1 && img.height == a.Length0
    ensures forall x: nat, y: nat :: x < a.Length1 && y < a.Length0 ==> img.rows[y][x] == a[y, x]
  {
    Raster(a.Length1, a.Length0,
           seq(a.Length0, (y: int) requires 0 <= y < a.Length0 reads a =>
                 seq(a.Length1, (x: int) requires 0 <= x < a.Length1 reads a => a[y, x])))
  }

  /** An array holding white outside the rectangle and the levels of `resized`
      inside it is the composite that Paste describes. */
  lemma SnapshotIsComposite(resized: Image, left: nat, top: nat, canvas: array2<byte>)
    requires canvas.Length0 == TargetHeight && canvas.Length1 == TargetWidth
    requires forall y, x :: 0 <= y < TargetHeight && 0 <= x < TargetWidth ==>
               canvas[y, x] == if top <= y < top + resized.height && left <= x < left + resized.width
                               then Quantize(resized.rows[y - top][x - left])
                               else White
    ensures Snapshot(canvas) == Paste(WhiteCanvas(), QuantizeImage(resized), left, top)
  {
    var expected := Paste(WhiteCanvas(), QuantizeImage(resized), left, top);
    var actual := Snapshot(canvas);
    forall x: nat, y: nat | x < TargetWidth && y < TargetHeight
      ensures actual.rows[y][x] == expected.rows[y][x]
    {
    }
    SamePixels(actual, expected);
  }

  /** The pixel work of convert_image: a white 480x800 canvas, the resized
      picture quantised in place and pasted at (left, top), the canvas saved. */
  method ComposeCanvas(resized: Image, left: nat, top: nat) returns (saved: Image)
    ensures saved == Paste(WhiteCanvas(), QuantizeImage(resized), left, top)
  {
    var result := new byte[TargetHeight, TargetWidth]((_, _) => White);
    var gray := new byte[resized.height, resized.width]((y, x) =>
                  if 0 <= y < |resized.rows| && 0 <= x < |resized.rows[y]| then resized.rows[y][x] else 0);
    ConvertToGrayscale4Level(gray);
    label BeforePaste:
    PasteInto(result, gray, left, top);
    forall y, x | 0 <= y < TargetHeight && 0 <= x < TargetWidth
      ensures result[y, x] == if top <= y < top + resized.height && left <= x < left + resized.width
                              then Quantize(resized.rows[y - top][x - left])
                              else White
    {
      if top <= y < top + resized.height && left <= x < left + resized.width {
        assert result[y, x] == gray[y - top, x - left];
      } else {
        assert result[y, x] == old@BeforePaste(result[y, x]);
      }
    }
    SnapshotIsComposite(resized, left, top, result);
    saved := Snapshot(result);
  }

  /** convert_image: open, scale, letterbox on white, quantise, save.  Its result
      is the normalised picture, or None where the source raises. */
  method ConvertImage(src: Image, sample: Sampler) returns (out: Option<Image>)
    ensures out == Normalize(src, sample)
  {
    if src.width == 0 || src.height == 0 {
      return None;
    }
    var size := FitSize(src.width, src.height);
    var newWidth, newHeight := size.0, size.1;
    if newWidth == 0 || newHeight == 0 {
      return None;
    }
    var resized := Resize(src, newWidth, newHeight, sample);
    var offset := Offsets(newWidth, newHeight);
    var saved := ComposeCanvas(resized, offset.0, offset.1);
    out := Some(saved);
  }

  // ---------------------------------------------------------------------------
  // Upload ingestion

  /** What the loop does with one directory entry. */
  datatype Outcome = Skipped | Failed | Converted(output: Image)

  /** One entry, given the uploads directory as it is when the loop reaches it:
      entries without an image suffix are skipped; an entry that is gone, is not
      an image, or cannot be converted fails. */
  function IngestOne(name: string, uploads: map<string, FileContent>, sample: Sampler): Outcome
  {
    if !HasUploadSuffix(name) then Skipped
    else if name !in uploads || uploads[name].OtherFile? then Failed
    else match Normalize(uploads[name].image, sample)
      case None => Failed
      case Some(out) => Converted(out)
  }

  /** An entry is skipped exactly when it lacks an image suffix, and converted
      exactly when it also is present, opens as a picture, and that picture is not
      empty and at most 480 times wider than tall and 800 times taller than wide;
      a conversion is a 480 x 800 picture. */
  lemma IngestOneOutcome(name: string, uploads: map<string, FileContent>, sample: Sampler)
    ensures IngestOne(name, uploads, sample).Skipped? <==> !HasUploadSuffix(name)
    ensures IngestOne(name, uploads, sample).Converted? <==>
              && HasUploadSuffix(name) && name in uploads && uploads[name].ImageFile?
              && var img := uploads[name].image;
                 img.width > 0 && img.height > 0 && img.width <= 480 * img.height && img.height <= 800 * img.width
    ensures IngestOne(name, uploads, sample).Converted? ==>
              var out := IngestOne(name, uploads, sample).output;
              out.width == TargetWidth && out.height == TargetHeight
  {
  }

  /** Both directories and the running count. */
  datatype IngestState = IngestState(uploads: map<string, FileContent>, images: map<string, FileContent>, processed: nat)

  /** One turn of the loop: a conversion is saved under the output name and its
      source is deleted; anything else changes nothing. */
  function IngestStep(s: IngestState, name: string, sample: Sampler): (r: IngestState)
  {
    match IngestOne(name, s.uploads, sample)
    case Converted(out) =>
      IngestState(s.uploads - {name}, s.images[OutputName(name) := ImageFile(out)], s.processed + 1)
    case _ => s
  }

  /** The state after the loop has handled the entries of `listing` in order. */
  function IngestAll(uploads: map<string, FileContent>, images: map<string, FileContent>,
                     listing: seq<string>, sample: Sampler): (r: IngestState)
    ensures r.uploads.Keys <= uploads.Keys
    ensures images.Keys <= r.images.Keys
    decreases |listing|
  {
    if listing == [] then IngestState(uploads, images, 0)
    else IngestStep(IngestAll(uploads, images, listing[..|listing| - 1], sample), listing[|listing| - 1], sample)
  }

  /** The entries of `listing` that the loop converts, judged on the directory as
      it was before the loop. */
  function Consumed(uploads: map<string, FileContent>, listing: seq<string>, sample: Sampler): set<string> {
    set name | name in listing && IngestOne(name, uploads, sample).Converted?
  }

  /** The names the conversions are written to. */
  function Outputs(consumed: set<string>): set<string> {
    set name | name in consumed :: OutputName(name)
  }

  /** Removing entries other than `name` does not change how `name` is handled. */
  lemma IngestOneUnaffected(name: string, uploads: map<string, FileContent>, gone: set<string>, sample: Sampler)
    requires name !in gone
    ensures IngestOne(name, uploads - gone, sample) == IngestOne(name, uploads, sample)
  {
  }

  /** Consumed grows by the last entry exactly when that entry converts. */
  lemma ConsumedSnoc(uploads: map<string, FileContent>, listing: seq<string>, sample: Sampler)
    requires listing != []
    ensures var name := listing[|listing| - 1];
            Consumed(uploads, listing, sample) ==
              Consumed(uploads, listing[..|listing| - 1], sample) +
              (if IngestOne(name, uploads, sample).Converted? then {name} else {})
  {
    assert listing == listing[..|listing| - 1] + [listing[|listing| - 1]];
  }

  /** One turn of the loop, for deletions and the count: `done` are the entries
      already consumed. */
  lemma StepDeletes(uploads: map<string, FileContent>, done: set<string>, before: IngestState,
                    name: string, sample: Sampler)
    requires done <= uploads.Keys && before.uploads == uploads - done && before.processed == |done|
    requires name in done ==> IngestOne(name, uploads, sample).Converted?
    ensures var after := IngestStep(before, name, sample);
            var grown := done + if IngestOne(name, uploads, sample).Converted? then {name} else {};
            && grown <= uploads.Keys
            && after.uploads == uploads - grown
            && after.processed == |grown|
  {
    if name in done {
      StepUnchanged(uploads, done, before, name, sample);
      AddPresent(done, name);
    } else {
      IngestOneUnaffected(name, uploads, done, sample);
      if IngestOne(name, uploads, sample).Converted? {
        StepConverts(before, name, sample);
        GrowDone(uploads, done, name);
      } else {
        StepSkips(before, name, sample);
      }
    }
  }

  /** A converted entry is deleted and counted. */
  lemma StepConverts(before: IngestState, name: string, sample: Sampler)
    requires IngestOne(name, before.uploads, sample).Converted?
    ensures name in before.uploads
    ensures IngestStep(before, name, sample).uploads == before.uploads - {name}
    ensures IngestStep(before, name, sample).processed == before.processed + 1
  {
  }

  /** A converted entry is saved under its output name, deleted and counted. */
  lemma StepSaves(before: IngestState, name: string, sample: Sampler)
    requires IngestOne(name, before.uploads, sample).Converted?
    ensures IngestStep(before, name, sample) ==
              IngestState(before.uploads - {name},
                          before.images[OutputName(name) := ImageFile(IngestOne(name, before.uploads, sample).output)],
                          before.processed + 1)
  {
  }

  /** An entry that does not convert changes nothing. */
  lemma StepSkips(before: IngestState, name: string, sample: Sampler)
    requires !IngestOne(name, before.uploads, sample).Converted?
    ensures IngestStep(before, name, sample) == before
  {
  }

  /** Consuming one more present entry. */
  lemma GrowDone(uploads: map<string, FileContent>, done: set<string>, name: string)
    requires done <= uploads.Keys && name in uploads && name !in done
    ensures done + {name} <= uploads.Keys
    ensures (uploads - done) - {name} == uploads - (done + {name})
    ensures |done + {name}| == |done| + 1
  {
  }

  /** After the loop exactly the converted sources are deleted, every other entry
      keeps its contents, and the count is the number of conversions. */
  lemma {:induction false} IngestDeletesExactlyConversions(uploads: map<string, FileContent>,
                                                           images: map<string, FileContent>,
                                                           listing: seq<string>, sample: Sampler)
    ensures var s := IngestAll(uploads, images, listing, sample);
            var consumed := Consumed(uploads, listing, sample);
            && consumed <= uploads.Keys
            && s.uploads == uploads - consumed
            && s.processed == |consumed|
    decreases |listing|
  {
    if listing != [] {
      var prefix := listing[..|listing| - 1];
      IngestDeletesExactlyConversions(uploads, images, prefix, sample);
      ConsumedSnoc(uploads, listing, sample);
      StepDeletes(uploads, Consumed(uploads, prefix, sample), IngestAll(uploads, images, prefix, sample),
                  listing[|listing| - 1], sample);
    }
  }

  lemma AddPresent(done: set<string>, name: string)
    requires name in done
    ensures done + {name} == done
  {
  }

  lemma OutputsAdd(done: set<string>, name: string)
    ensures Outputs(done + {name}) == Outputs(done) + {OutputName(name)}
  {
  }

  /** `result` is the images directory after consuming `consumed`: the old images
      and the output names; each output name holds the conversion of one of the
      consumed sources with that name, every other image is kept. */
  ghost predicate Written(uploads: map<string, FileContent>, images: map<string, FileContent>,
                          consumed: set<string>, result: map<string, FileContent>, sample: Sampler)
  {
    && result.Keys == images.Keys + Outputs(consumed)
    && (forall out :: out in result && out !in Outputs(consumed) ==> result[out] == images[out])
    && (forall out :: out in Outputs(consumed) ==>
          exists name :: name in consumed && OutputName(name) == out &&
                         IngestOne(name, uploads, sample).Converted? &&
                         result[out] == ImageFile(IngestOne(name, uploads, sample).output))
  }

  /** Writing one output keeps the old images that are not outputs. */
  lemma WriteKeeps(images: map<string, FileContent>, done: set<string>, before: map<string, FileContent>,
                   name: string, file: FileContent)
    requires before.Keys == images.Keys + Outputs(done)
    requires forall out :: out in before && out !in Outputs(done) ==> before[out] == images[out]
    ensures var result := before[OutputName(name) := file];
            && result.Keys == images.Keys + Outputs(done + {name})
            && forall out :: out in result && out !in Outputs(done + {name}) ==> result[out] == images[out]
  {
    OutputsAdd(done, name);
  }

  /** One turn of the loop that converts an entry not consumed before. */
  lemma StepWritesNew(uploads: map<string, FileContent>, images: map<string, FileContent>, done: set<string>,
                      before: IngestState, name: string, sample: Sampler)
    requires name !in done && IngestOne(name, uploads, sample).Converted?
    requires Written(uploads, images, done, before.images, sample)
    ensures Written(uploads, images, done + {name},
                    before.images[OutputName(name) := ImageFile(IngestOne(name, uploads, sample).output)], sample)
  {
    var grown := done + {name};
    var written := OutputName(name);
    var file := ImageFile(IngestOne(name, uploads, sample).output);
    var result := before.images[written := file];
    WriteKeeps(images, done, before.images, name, file);
    OutputsAdd(done, name);
    forall out | out in Outputs(grown)
      ensures exists n :: n in grown && OutputName(n) == out &&
                          IngestOne(n, uploads, sample).Converted? &&
                          result[out] == ImageFile(IngestOne(n, uploads, sample).output)
    {
      if out == written {
        assert name in grown && result[out] == file;
      } else {
        assert out in Outputs(done);
        KeepWitness(uploads, images, done, before.images, name, out, file, sample);
      }
    }
  }

  /** An output written before keeps its source after another name is written. */
  lemma KeepWitness(uploads: map<string, FileContent>, images: map<string, FileContent>, done: set<string>,
                    before: map<string, FileContent>, name: string, out: string, file: FileContent, sample: Sampler)
    requires Written(uploads, images, done, before, sample)
    requires out in Outputs(done) && out != OutputName(name)
    ensures exists n :: n in done + {name} && OutputName(n) == out &&
                        IngestOne(n, uploads, sample).Converted? &&
                        before[OutputName(name) := file][out] == ImageFile(IngestOne(n, uploads, sample).output)
  {
    var n :| n in done && OutputName(n) == out &&
             IngestOne(n, uploads, sample).Converted? &&
             before[out] == ImageFile(IngestOne(n, uploads, sample).output);
    assert n in done + {name};
  }

  /** One turn of the loop, for the images directory. */
  lemma StepWrites(uploads: map<string, FileContent>, images: map<string, FileContent>, done: set<string>,
                   before: IngestState, name: string, sample: Sampler)
    requires before.uploads == uploads - done
    requires name in done ==> IngestOne(name, uploads, sample).Converted?
    requires Written(uploads, images, done, before.images, sample)
    ensures var grown := done + if IngestOne(name, uploads, sample).Converted? then {name} else {};
            Written(uploads, images, grown, IngestStep(before, name, sample).images, sample)
  {
    var grown := done + if IngestOne(name, uploads, sample).Converted? then {name} else {};
    if name in done {
      StepUnchanged(uploads, done, before, name, sample);
      AddPresent(done, name);
      assert grown == done;
    } else {
      IngestOneUnaffected(name, uploads, done, sample);
      if IngestOne(name, uploads, sample).Converted? {
        StepWritesNew(uploads, images, done, before, name, sample);
      } else {
        assert grown == done;
      }
    }
  }

  /** An entry already consumed is gone, so its turn changes nothing. */
  lemma StepUnchanged(uploads: map<string, FileContent>, done: set<string>, before: IngestState,
                      name: string, sample: Sampler)
    requires before.uploads == uploads - done && name in done
    ensures IngestStep(before, name, sample) == before
  {
    assert name !in before.uploads;
  }

  /** After the loop the images directory is Written for the consumed entries. */
  lemma {:induction false} IngestWritesConversions(uploads: map<string, FileContent>,
                                                   images: map<string, FileContent>,
                                                   listing: seq<string>, sample: Sampler)
    ensures Written(uploads, images, Consumed(uploads, listing, sample),
                    IngestAll(uploads, images, listing, sample).images, sample)
    decreases |listing|
  {
    if listing == [] {
      assert Outputs({}) == {};
    } else {
      var prefix := listing[..|listing| - 1];
      IngestWritesConversions(uploads, images, prefix, sample);
      IngestDeletesExactlyConversions(uploads, images, prefix, sample);
      ConsumedSnoc(uploads, listing, sample);
      StepWrites(uploads, images, Consumed(uploads, prefix, sample), IngestAll(uploads, images, prefix, sample),
                 listing[|listing| - 1], sample);
    }
  }

  /** The count equals the number of deleted sources. */
  lemma IngestCountsDeletions(uploads: map<string, FileContent>, images: map<string, FileContent>,
                              listing: seq<string>, sample: Sampler)
    ensures var s := IngestAll(uploads, images, listing, sample);
            s.processed == |uploads.Keys| - |s.uploads.Keys|
  {
    IngestDeletesExactlyConversions(uploads, images, listing, sample);
    var consumed := Consumed(uploads, listing, sample);
    assert (uploads - consumed).Keys == uploads.Keys - consumed;
  }

  /** Entries without an image suffix, and entries whose conversion fails, stay in
      the uploads directory with their contents. */
  lemma IngestKeepsFailures(uploads: map<string, FileContent>, images: map<string, FileContent>,
                            listing: seq<string>, sample: Sampler, name: string)
    requires name in uploads
    requires !HasUploadSuffix(name) || !IngestOne(name, uploads, sample).Converted?
    ensures var s := IngestAll(uploads, images, listing, sample);
            name in s.uploads && s.uploads[name] == uploads[name]
  {
    IngestDeletesExactlyConversions(uploads, images, listing, sample);
  }

  /** When the listing names every entry, an image entry is left behind exactly
      when its conversion fails. */
  lemma IngestLeavesOnlyFailures(uploads: map<string, FileContent>, images: map<string, FileContent>,
                                 listing: seq<string>, sample: Sampler, name: string)
    requires forall n :: n in uploads ==> n in listing
    requires name in uploads && HasUploadSuffix(name)
    ensures var s := IngestAll(uploads, images, listing, sample);
            name in s.uploads <==> IngestOne(name, uploads, sample) == Failed
  {
    IngestDeletesExactlyConversions(uploads, images, listing, sample);
  }

  /** Handling one more entry is one more step. */
  lemma IngestAllSnoc(uploads: map<string, FileContent>, images: map<string, FileContent>,
                      listing: seq<string>, i: nat, sample: Sampler)
    requires i < |listing|
    ensures IngestAll(uploads, images, listing[..i + 1], sample) ==
            IngestStep(IngestAll(uploads, images, listing[..i], sample), listing[i], sample)
  {
    assert listing[..i + 1][..i] == listing[..i];
  }

  /** One turn of the loop only ever removes its own entry from the uploads
      directory, changes no surviving upload, removes no image, and counts
      exactly the entries it removed. */
  lemma IngestStepShape(s: IngestState, name: string, sample: Sampler)
    ensures var r := IngestStep(s, name, sample);
            && r.uploads.Keys <= s.uploads.Keys
            && s.uploads.Keys - {name} <= r.uploads.Keys
            && (forall n :: n in r.uploads ==> r.uploads[n] == s.uploads[n])
            && s.images.Keys <= r.images.Keys
            && r.processed == s.processed + |s.uploads.Keys - r.uploads.Keys|
  {
    var r := IngestStep(s, name, sample);
    if IngestOne(name, s.uploads, sample).Converted? {
      StepConverts(s, name, sample);
      assert s.uploads.Keys - r.uploads.Keys == {name};
    } else {
      StepSkips(s, name, sample);
      assert s.uploads.Keys - r.uploads.Keys == {};
    }
  }

  /** The two directories the pipeline works with; None stands for a directory
      that does not exist. */
  class Folders {
    var uploads: Option<map<string, FileContent>>
    var images: Option<map<string, FileContent>>

    constructor (uploads: Option<map<string, FileContent>>, images: Option<map<string, FileContent>>)
      ensures this.uploads == uploads && this.images == images
    {
      this.uploads := uploads;
      this.images := images;
    }

    /** One turn of the loop of process_uploads: convert the entry if it has an
        image suffix; on success save the result under the output name and
        delete the source.  `converted` says whether to count it. */
    method IngestEntry(file: string, ghost count: nat, sample: Sampler) returns (converted: bool)
      requires uploads.Some? && images.Some?
      modifies this
      ensures converted == IngestOne(file, old(uploads).value, sample).Converted?
      ensures uploads.Some? && images.Some?
      ensures IngestStep(IngestState(old(uploads).value, old(images).value, count), file, sample)
              == IngestState(uploads.value, images.value, count + if converted then 1 else 0)
    {
      ghost var start := IngestState(uploads.value, images.value, count);
      converted := false;
      if HasUploadSuffix(file) {
        var outputPath := OutputName(file);
        var result: Option<Image> := None;
        if file in uploads.value && uploads.value[file].ImageFile? {
          result := ConvertImage(uploads.value[file].image, sample);
        }
        if result.Some? {
          assert IngestOne(file, start.uploads, sample) == Converted(result.value);
          StepSaves(start, file, sample);
          images := Some(images.value[outputPath := ImageFile(result.value)]);
          uploads := Some(uploads.value - {file});
          converted := true;
        } else {
          assert !IngestOne(file, start.uploads, sample).Converted?;
          StepSkips(start, file, sample);
        }
      } else {
        StepSkips(start, file, sample);
      }
    }

    /** The loop of process_uploads: every entry of `listing` handled in turn. */
    method IngestListing(listing: seq<string>, sample: Sampler) returns (processed: nat)
      requires uploads.Some? && images.Some?
      modifies this
      ensures var s := IngestAll(old(uploads).value, old(images).value, listing, sample);
              uploads == Some(s.uploads) && images == Some(s.images) && processed == s.processed
    {
      ghost var startUploads, startImages := uploads.value, images.value;
      processed := 0;
      var i := 0;
      while i < |listing|
        invariant 0 <= i <= |listing|
        invariant uploads.Some? && images.Some?
        invariant IngestAll(startUploads, startImages, listing[..i], sample)
                  == IngestState(uploads.value, images.value, processed)
      {
        ghost var before := IngestState(uploads.value, images.value, processed);
        var converted := IngestEntry(listing[i], processed, sample);
        if converted {
          processed := processed + 1;
        }
        IngestAllSnoc(startUploads, startImages, listing, i, sample);
        i := i + 1;
      }
      assert listing[..i] == listing;
    }

    /** process_uploads.  `listing` is the order in which the uploads directory
        lists its entries.  A missing uploads directory is created and nothing
        else happens; otherwise the images directory is created if needed and
        every entry is handled in turn. */
    method ProcessUploads(listing: seq<string>, sample: Sampler) returns (processed: nat)
      modifies this
      ensures old(uploads).None? ==> uploads == Some(map[]) && images == old(images) && processed == 0
      ensures old(uploads).Some? ==>
                var start := if old(images).Some? then old(images).value else map[];
                var s := IngestAll(old(uploads).value, start, listing, sample);
                uploads == Some(s.uploads) && images == Some(s.images) && processed == s.processed
    {
      if uploads.None? {
        uploads := Some(map[]);
        return 0;
      }
      if images.None? {
        images := Some(map[]);
      }
      processed := IngestListing(listing, sample);
    }
  }
}
