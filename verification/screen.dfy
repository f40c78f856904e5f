/** `Screen`: a W×H pixel buffer of its own that the render pass clears and
    then fills, row by row, from the blender's frame. */
module Screen {
  import opened Argb
  import opened Arith

  datatype Buffer = Buffer(width: nat, height: nat, pixels: seq<Word>)

  predicate Valid(b: Buffer) {
    |b.pixels| == b.width * b.height
  }

  /** The constructor: `new int[width * height]`, every entry 0. */
  function New(width: nat, height: nat): (b: Buffer)
    ensures Valid(b) && b.width == width && b.height == height
    ensures forall i :: 0 <= i < |b.pixels| ==> b.pixels[i] == 0
  {
    Buffer(width, height, seq(width * height, _ => 0))
  }

  /** `clear`: `Arrays.fill(pixels, 0)`. */
  method Clear(b: Buffer) returns (r: Buffer)
    ensures r.width == b.width && r.height == b.height
    ensures |r.pixels| == |b.pixels|
    ensures forall i :: 0 <= i < |r.pixels| ==> r.pixels[i] == 0
  {
    var pixels := b.pixels;
    var i := 0;
    while i < |pixels|
      invariant 0 <= i <= |pixels| == |b.pixels|
      invariant forall j :: 0 <= j < i ==> pixels[j] == 0
    {
      pixels := pixels[i := 0];
      i := i + 1;
    }
    r := b.(pixels := pixels);
  }

  /** `System.arraycopy(frame, y * width, pixels, y * width, width)`: row
      `y` of the frame replaces row `y` of the buffer; every other entry is
      kept. */
  function CopyRow(pixels: seq<Word>, frame: seq<Word>, y: nat, width: nat): (r: seq<Word>)
    requires y * width + width <= |pixels| && y * width + width <= |frame|
    ensures |r| == |pixels|
    ensures forall i :: y * width <= i < y * width + width ==> r[i] == frame[i]
    ensures forall i :: 0 <= i < y * width || y * width + width <= i < |pixels| ==>
      r[i] == pixels[i]
  {
    var start := y * width;
    pixels[..start] + frame[start..start + width] + pixels[start + width..]
  }

  /** The buffer after the first `rows` iterations of `render`'s loop: the
      first `rows` rows come from the frame, the rest are as they were. */
  function Rows(pixels: seq<Word>, frame: seq<Word>, width: nat, rows: nat): (r: seq<Word>)
    requires rows * width <= |pixels| && rows * width <= |frame|
    ensures |r| == |pixels|
    ensures forall i :: 0 <= i < rows * width ==> r[i] == frame[i]
    ensures forall i :: rows * width <= i < |pixels| ==> r[i] == pixels[i]
    decreases rows
  {
    if rows == 0 then pixels
    else
      assert (rows - 1) * width + width == rows * width;
      CopyRow(Rows(pixels, frame, width, rows - 1), frame, rows - 1, width)
  }

  /** After all `height` rows the buffer is the frame (its first W×H
      entries), whatever it held before. */
  lemma RowsCopyFrame(pixels: seq<Word>, frame: seq<Word>, width: nat, height: nat)
    requires |pixels| == width * height <= |frame|
    ensures Rows(pixels, frame, width, height) == frame[..width * height]
  {
    assert height * width == width * height;
  }

  /** Clearing before rendering changes nothing: a full render overwrites
      every entry. */
  lemma ClearIrrelevant(pixels: seq<Word>, frame: seq<Word>, width: nat, height: nat)
    requires |pixels| == width * height <= |frame|
    ensures Rows(seq(|pixels|, _ => 0), frame, width, height) == Rows(pixels, frame, width, height)
  {
    RowsCopyFrame(pixels, frame, width, height);
    RowsCopyFrame(seq(|pixels|, _ => 0), frame, width, height);
  }

  /** Rendering the same frame twice is rendering it once. */
  lemma RenderIdempotent(pixels: seq<Word>, frame: seq<Word>, width: nat, height: nat)
    requires |pixels| == width * height <= |frame|
    ensures var once := Rows(pixels, frame, width, height);
      Rows(once, frame, width, height) == once
  {
    RowsCopyFrame(pixels, frame, width, height);
    RowsCopyFrame(Rows(pixels, frame, width, height), frame, width, height);
  }

  /** `render`: copy the frame into the buffer one row at a time. The frame
      is only read. */
  method Render(b: Buffer, frame: seq<Word>) returns (r: Buffer)
    requires Valid(b) && b.width * b.height <= |frame|
    ensures r.width == b.width && r.height == b.height
    ensures r.pixels == frame[..b.width * b.height]
  {
    var pixels := b.pixels;
    var y := 0;
    while y < b.height
      invariant 0 <= y <= b.height
      invariant y * b.width <= |frame|
      invariant pixels == Rows(b.pixels, frame, b.width, y)
    {
      assert (y + 1) * b.width <= b.height * b.width by {
        MulMonotone(y + 1, b.height, b.width);
      }
      pixels := CopyRow(pixels, frame, y, b.width);
      y := y + 1;
    }
    RowsCopyFrame(b.pixels, frame, b.width, b.height);
    r := b.(pixels := pixels);
  }
}
