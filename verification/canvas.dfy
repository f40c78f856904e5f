/** Loading and normalising the pictures of a folder: decode every file,
    drop the ones that fail, size a shared canvas to the largest width and
    height, and centre each image on its own canvas. The decoder and the
    Graphics2D drawing are parameters of the model. */
module Canvas {
  import opened Argb
  import opened Arith
  import opened Wrappers

  /** An image dimension: `BufferedImage` rejects a width or height of 0. */
  type Extent = n: nat | n > 0 witness 1

  /** A decoded image, as `ImageIO.read` returns it: never empty. */
  datatype Raster = Raster(width: Extent, height: Extent, argb: seq<Word>)

  /** The decoder: `Some(raster)`, or `None` where `ImageIO.read` returns
      null or throws an `IOException` (both are skipped the same way). */
  type Decoder<!F> = F -> Option<Raster>

  /** What the canvas holds after the black fill and `drawImage(img, x, y)`:
      `paint(img, x, y, cx, cy)` is the colour `getRGB` reports at canvas
      point (cx, cy). AWT's compositing lives behind this parameter. */
  type Painter = (Raster, int, int, nat, nat) -> Word

  /** `loadAllImages`: the images that decode, in the order of their files. */
  function LoadAll<F>(files: seq<F>, decode: Decoder<F>): (images: seq<Raster>)
    ensures |images| <= |files|
  {
    if |files| == 0 then []
    else
      var loaded := LoadAll(files[..|files| - 1], decode);
      match decode(files[|files| - 1])
      case Some(img) => loaded + [img]
      case None => loaded
  }

  /** Loading a concatenation loads each part in turn: survivors keep the
      relative order of their files. */
  lemma {:induction false} LoadAllAppend<F>(a: seq<F>, b: seq<F>, decode: Decoder<F>)
    ensures LoadAll(a + b, decode) == LoadAll(a, decode) + LoadAll(b, decode)
    decreases |b|
  {
    if |b| == 0 {
      assert a + b == a;
    } else {
      var b' := b[..|b| - 1];
      assert (a + b)[..|a + b| - 1] == a + b';
      assert (a + b)[|a + b| - 1] == b[|b| - 1];
      LoadAllAppend(a, b', decode);
    }
  }

  /** An image is loaded exactly when some file decodes to it. */
  lemma {:induction false} LoadAllMembers<F>(files: seq<F>, decode: Decoder<F>, img: Raster)
    ensures img in LoadAll(files, decode) <==>
      exists i :: 0 <= i < |files| && decode(files[i]) == Some(img)
  {
    if |files| > 0 {
      var front := files[..|files| - 1];
      LoadAllMembers(front, decode, img);
      if exists i :: 0 <= i < |files| && decode(files[i]) == Some(img) {
        var i :| 0 <= i < |files| && decode(files[i]) == Some(img);
        if i < |files| - 1 {
          assert decode(front[i]) == Some(img);
        }
      }
      if exists i :: 0 <= i < |front| && decode(front[i]) == Some(img) {
        var i :| 0 <= i < |front| && decode(front[i]) == Some(img);
        assert decode(files[i]) == Some(img);
      }
    }
  }

  /** Nothing is loaded exactly when no file decodes. */
  lemma {:induction false} LoadAllEmpty<F>(files: seq<F>, decode: Decoder<F>)
    ensures LoadAll(files, decode) == [] <==>
      forall i :: 0 <= i < |files| ==> decode(files[i]).None?
  {
    if |files| > 0 {
      var front := files[..|files| - 1];
      LoadAllEmpty(front, decode);
      if LoadAll(files, decode) == [] {
        forall i | 0 <= i < |files|
          ensures decode(files[i]).None?
        {
          if i < |files| - 1 {
            assert files[i] == front[i];
          }
        }
      }
    }
  }

  /** `setDimensions`: the canvas is as wide as the widest image and as high
      as the highest one; (0, 0) when there are no images. */
  function CanvasSize(images: seq<Raster>): (size: (nat, nat))
    ensures forall i :: 0 <= i < |images| ==>
      images[i].width <= size.0 && images[i].height <= size.1
    ensures |images| == 0 ==> size == (0, 0)
    ensures |images| > 0 ==>
      (exists i :: 0 <= i < |images| && images[i].width == size.0) &&
      (exists j :: 0 <= j < |images| && images[j].height == size.1)
  {
    if |images| == 0 then (0, 0)
    else
      var (w, h) := CanvasSize(images[..|images| - 1]);
      var last := images[|images| - 1];
      (Max(w, last.width), Max(h, last.height))
  }

  /** The offset `drawImageCentered` places an image of the given extent at
      along a canvas axis: `(canvas - extent) / 2` in Java arithmetic. The
      margins before and after the image differ by at most one pixel: when
      the image fits, the odd pixel of margin goes after it; when it
      overhangs the canvas (a negative margin), the odd pixel of overhang
      goes after it too. */
  function Offset(canvas: int, extent: int): (o: int)
    ensures extent <= canvas ==> 0 <= o <= canvas - extent - o <= o + 1
    ensures canvas < extent ==> o - 1 <= canvas - extent - o <= o <= 0
  {
    TruncDivBounds(canvas - extent, 2);
    TruncDiv(canvas - extent, 2)
  }

  /** An image no larger than the canvas lies inside it, and its margins
      before and after differ by at most one pixel, the odd pixel going
      after. */
  lemma Centered(canvas: int, extent: int)
    requires 0 <= extent <= canvas
    ensures 0 <= Offset(canvas, extent)
    ensures Offset(canvas, extent) + extent <= canvas
    ensures var after := canvas - extent - Offset(canvas, extent);
      Offset(canvas, extent) <= after <= Offset(canvas, extent) + 1
  {
  }

  /** `resizeAndAdd` then `addPixelsToCollection`: the W×H canvas read back
      row by row (`getRGB(0, 0, W, H, pixels, 0, W)`), with the image drawn
      at its centred offset. */
  function Normalize(img: Raster, width: nat, height: nat, paint: Painter): (pixels: seq<Word>)
    ensures |pixels| == width * height
    ensures forall x, y :: 0 <= x < width && 0 <= y < height ==>
      pixels[RowMajorIndex(x, y, width, height)] ==
        paint(img, Offset(width, img.width), Offset(height, img.height), x, y)
  {
    var ox := Offset(width, img.width);
    var oy := Offset(height, img.height);
    var pixels := seq(width * height, i requires 0 <= i < width * height =>
      paint(img, ox, oy, i % width, i / width));
    pixels
  }

  /** `processAllImages`: one normalised picture per loaded image, in order. */
  function ProcessAll(images: seq<Raster>, width: nat, height: nat, paint: Painter)
    : (pictures: seq<seq<Word>>)
    ensures |pictures| == |images|
    ensures forall k :: 0 <= k < |pictures| ==> |pictures[k]| == width * height
    ensures forall k :: 0 <= k < |pictures| ==> pictures[k] == Normalize(images[k], width, height, paint)
  {
    seq(|images|, k requires 0 <= k < |images| => Normalize(images[k], width, height, paint))
  }

  /** Every loaded image fits the canvas computed from all of them, so each
      one is drawn entirely inside its canvas. */
  lemma LoadedImagesFit(images: seq<Raster>, k: int)
    requires 0 <= k < |images|
    ensures var (w, h) := CanvasSize(images);
      0 <= Offset(w, images[k].width) && Offset(w, images[k].width) + images[k].width <= w &&
      0 <= Offset(h, images[k].height) && Offset(h, images[k].height) + images[k].height <= h
  {
    var (w, h) := CanvasSize(images);
    Centered(w, images[k].width);
    Centered(h, images[k].height);
  }
}
