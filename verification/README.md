# Picture-Transition in Dafny

A model of the slideshow core of Picture-Transition, a Java/Swing program that
shows a folder of pictures as a looping slideshow with linear crossfades.

- `PictureBlender` loads the pictures and normalises them onto one shared
  canvas. It then runs the crossfade engine: one `transition(weight)` call per
  tick either switches to the next picture or writes a per-channel blend of
  the current and next pictures into the frame.
- `Screen` clears its own buffer and copies the blender's frame into it, row
  by row.
- `Main` supplies four pieces:
  - the image-name filter used when a folder is chosen;
  - the speed setting (seconds to ticks);
  - the fixed-timestep catch-up loop, which calls `update` once for every
    whole 1/60 s owed;
  - the guards that keep `update` and `render` idle until a folder has been
    loaded.

Modules, one per concern of the program:

| file | module | models |
|---|---|---|
| `wrappers.dfy` | `Wrappers` | `Option` and `Result` |
| `argb.dfy` | `Argb` | packed ARGB words (`bv32`) and their channels (`bv8`), as `java.awt.Color` reads and writes them |
| `arith.dfy` | `Arith` | Java's truncating division, plus the facts about `*`, `/` and `%` that the proofs need |
| `canvas.dfy` | `Canvas` | `loadAllImages`, `setDimensions`, `processAllImages`, `drawImageCentered` and `addPixelsToCollection` |
| `blender.dfy` | `Blender` | the constructor, `initializeCurrentState`, `transition`, `switchToNextImage` and `progressTransition` |
| `playback.dfy` | `Playback` | many `transition` calls in a row: crossfade length, the slideshow, the cycle, a worked example |
| `screen.dfy` | `Screen` | `Screen`'s constructor, `clear` and `render` |
| `file_filter.dfy` | `FileFilter` | the `listFiles` filter in `selectFolder` |
| `app.dfy` | `App` | `updateSpeed`, `selectFolder`/`initializeHost`, `update`, `render` and `run` |

Modelling choices:

- **Pixels.** A pixel is the bit pattern of a Java `int` (`bv32`). A channel
  is a `bv8`. Turning an `int` into a channel carries the 0..255 range check
  that `new Color(r, g, b, a)` performs.
- **Blend arithmetic.** `progressTransition` computes
  `(int)(cur + (next - cur) * (counter / weight))` in `double`. The model
  evaluates the exact rational value `(cur*weight + (next-cur)*counter) / weight`
  and truncates toward zero, as the `(int)` cast does.
- **Weight.** The weight is a parameter of each tick.
- **External pieces as parameters.** The image decoder (`ImageIO.read`) is a
  parameter returning an optional raster. So is the Graphics2D drawing of an
  image onto the black canvas, which returns the colour at each canvas point.
  So are the folder listing, the measured time intervals, and whether a
  buffer strategy exists.
- **Decoded images are never empty.** A raster's width and height are
  positive (`Canvas.Extent`), because `BufferedImage` rejects a dimension of
  0; so a blender that is built always has a canvas of at least 1×1.
- **No mutable state.** State is immutable: a tick returns a new state.
  `Screen`'s loops are methods over sequences with loop invariants.

### Behaviour of the code worth knowing

- **No crossfade from the last picture back to the first.** When the index is
  on the last picture, `transition` resets the index and counter to 0 before
  counting (`PictureBlender.java:121-124`). As a result:
  - the blend never targets the first picture again (`Blender.TransitionShows`);
  - the tick after the last picture shows the first picture already blended
    1/weight toward the second (`Blender.JumpAfterLast`);
  - the exact first-picture state is never shown again
    (`Blender.FirstPictureNotRevisited`);
  - the cycle repeats every (N−1)·weight ticks (`Playback.Period`).
- **Truncation.** The blended channels are truncated toward zero. In a
  two-picture red/blue slideshow at weight 4, the first blended frame has
  red 191 and blue 63 (`Playback.TwoPictureExample`).
- **Opaque canvas.** The normalised canvas is `TYPE_INT_RGB`, so every
  normalised picture is opaque whatever the source's alpha. In the model this
  is inside the `paint` parameter.
- **Weight range.** The speed spinner holds 1..100 seconds, so the weight is
  always 60..6000 ticks; no other value can reach `transition`.
- **Native size.** Images are drawn at their own size, centred on the shared
  canvas; none is scaled.

## Model

| member | source | states |
|---|---|---|
| Argb.ChannelOf | src/main/java/com/programmersdiary/PictureBlender.java:157-162 | a level in 0..255 becomes the channel with that value, the range `new Color` accepts |
| Argb.Red | src/main/java/com/programmersdiary/PictureBlender.java:149-155 | `Color.getRed()` on a packed word; with `Green`, `Blue` and `Alpha` it is the left inverse of `Pack` (`Argb.Pack`, `Argb.PackUnpack`) |
| Argb.Green | src/main/java/com/programmersdiary/PictureBlender.java:149-155 | `Color.getGreen()`; read back by `Argb.Pack` and inverted by `Argb.PackUnpack` |
| Argb.Blue | src/main/java/com/programmersdiary/PictureBlender.java:149-155 | `Color.getBlue()`; read back by `Argb.Pack` and inverted by `Argb.PackUnpack` |
| Argb.Alpha | src/main/java/com/programmersdiary/PictureBlender.java:149-155 | `Color.getAlpha()`; read back by `Argb.Pack` and inverted by `Argb.PackUnpack` |
| Argb.Pack | src/main/java/com/programmersdiary/PictureBlender.java:162 | `new Color(r, g, b, a).getRGB()`: each of the four channels reads back unchanged from the packed word |
| Argb.PackUnpack | src/main/java/com/programmersdiary/PictureBlender.java:149-162 | unpacking a word into red, green, blue and alpha and packing them again gives back the same word |
| Argb.ChannelsDetermineWord | src/main/java/com/programmersdiary/PictureBlender.java:149-162 | two words are equal if and only if all four channels agree |
| Arith.TruncDiv | src/main/java/com/programmersdiary/PictureBlender.java:107-108 | Java's `int` division, rounding toward zero; `Arith.TruncDivBounds` brackets it on the side of zero |
| Arith.TruncDivBounds | src/main/java/com/programmersdiary/PictureBlender.java:107-108 | Java's `/` and the `(int)` cast give the multiple of the divisor nearest to the dividend on the side of zero |
| Arith.RowMajorIndex | src/main/java/com/programmersdiary/PictureBlender.java:114 | pixel (x, y) of a row-major W×H buffer sits inside the buffer, and `%` and `/` by W recover x and y |
| Canvas.LoadAll | src/main/java/com/programmersdiary/PictureBlender.java:32-41 | at most one image per file |
| Canvas.LoadAllAppend | src/main/java/com/programmersdiary/PictureBlender.java:32-41 | loading a concatenation loads each part in turn, so surviving images keep their files' order |
| Canvas.LoadAllMembers | src/main/java/com/programmersdiary/PictureBlender.java:32-41 | an image is loaded if and only if some file decodes to it; failed files are dropped |
| Canvas.LoadAllEmpty | src/main/java/com/programmersdiary/PictureBlender.java:32-41 | nothing is loaded if and only if no file decodes |
| Canvas.CanvasSize | src/main/java/com/programmersdiary/PictureBlender.java:53-62 | every image fits the canvas; each dimension is reached by some image; (0, 0) when there are no images |
| Canvas.Offset | src/main/java/com/programmersdiary/PictureBlender.java:107-108 | `(W - w) / 2` in Java arithmetic, pinned in both cases: an image that fits gets a non-negative offset, and the margin after it is the margin before or one more; for an image that overhangs, the overhang after it is the overhang before or one more |
| Canvas.Centered | src/main/java/com/programmersdiary/PictureBlender.java:106-110 | an image no larger than the canvas gets a non-negative offset and ends inside the canvas; the two margins differ by at most one, the odd pixel going after |
| Canvas.Normalize | src/main/java/com/programmersdiary/PictureBlender.java:106-116 | a normalised picture has W×H pixels; the pixel at (x, y) is the drawn canvas's colour at (x, y) with the image at its centred offset |
| Canvas.ProcessAll | src/main/java/com/programmersdiary/PictureBlender.java:64-68 | one picture per loaded image, in order: picture k is the k-th loaded image normalised onto the W×H canvas |
| Canvas.LoadedImagesFit | src/main/java/com/programmersdiary/PictureBlender.java:53-62 | every loaded image lies entirely inside the canvas computed from all of them |
| Blender.New | src/main/java/com/programmersdiary/PictureBlender.java:23-30 | construction succeeds if and only if some file decodes; then the canvas size is the maximum and positive in both dimensions, picture k is the k-th decoded image normalised onto that canvas, index and counter are 0, and the frame is the first picture |
| Blender.NewShows | src/main/java/com/programmersdiary/PictureBlender.java:70-74 | a freshly built blender shows its first picture exactly |
| Blender.Lerp | src/main/java/com/programmersdiary/PictureBlender.java:152-155 | one channel of the blend, `counter / weight` of the way, truncated; between its ends for progress in [0, 1] (`Blender.LerpBetween`) and the identity on equal ends (`Blender.LerpSame`) |
| Blender.Clamp | src/main/java/com/programmersdiary/PictureBlender.java:157-160 | the nearest level in 0..255: values inside are kept, values below become 0 and values above become 255 |
| Blender.LerpBetween | src/main/java/com/programmersdiary/PictureBlender.java:152-155 | with progress in [0, 1] the interpolated channel lies between its two ends |
| Blender.LerpSame | src/main/java/com/programmersdiary/PictureBlender.java:152-155 | interpolating a channel with itself gives it back, for any progress |
| Blender.ClampKeeps | src/main/java/com/programmersdiary/PictureBlender.java:157-160 | the clamp leaves a value in 0..255 unchanged |
| Blender.BlendChannelBetween | src/main/java/com/programmersdiary/PictureBlender.java:152-160 | an interpolated and clamped channel lies between the source channels: the clamp never bites |
| Blender.BlendChannelSame | src/main/java/com/programmersdiary/PictureBlender.java:152-160 | a channel blended with itself comes out unchanged |
| Blender.BlendChannel | src/main/java/com/programmersdiary/PictureBlender.java:152-160 | both facts above about one blended channel |
| Blender.BlendPixel | src/main/java/com/programmersdiary/PictureBlender.java:149-162 | each channel of the blended pixel lies between the two source channels; a pixel blended with itself is unchanged |
| Blender.BlendPixelChannels | src/main/java/com/programmersdiary/PictureBlender.java:149-162 | each channel of the blended pixel comes from the same channel of the two sources; no channel leaks into another |
| Blender.BlendFrame | src/main/java/com/programmersdiary/PictureBlender.java:148-163 | the loop of `progressTransition`: one blended pixel per pixel of the picture, each between the two pictures and kept where they agree (`Blender.BlendFrameChannels`) |
| Blender.BlendFrameChannels | src/main/java/com/programmersdiary/PictureBlender.java:148-163 | every pixel of a blended frame lies channel by channel between the two pictures; pixels on which they agree are kept exactly |
| Blender.SwitchToNext | src/main/java/com/programmersdiary/PictureBlender.java:135-142 | the index advances modulo the number of pictures, the counter restarts at 0, and the frame is an exact copy of the new picture |
| Blender.NextIndex | src/main/java/com/programmersdiary/PictureBlender.java:145 | `(index + 1) % size` is the next index, or 0 past the end |
| Blender.Progress | src/main/java/com/programmersdiary/PictureBlender.java:144-164 | index and counter are kept; the frame blends the current picture `counter / weight` of the way toward the picture at `(index + 1) % size` |
| Blender.ProgressBetween | src/main/java/com/programmersdiary/PictureBlender.java:144-164 | while the counter is within the weight, the frame lies between the current and the next picture |
| Blender.Transition | src/main/java/com/programmersdiary/PictureBlender.java:118-133 | the pictures and size never change; an empty list changes nothing; with weight ≥ 1, index and counter stay within bounds |
| Blender.TransitionShows | src/main/java/com/programmersdiary/PictureBlender.java:118-133 | with two pictures or more, every tick shows either an exact picture (counter 0) or a blend of neighbours k and k+1, never of the last picture and the first |
| Blender.StepInside | src/main/java/com/programmersdiary/PictureBlender.java:126-132 | from any picture but the last, a tick either switches to the next picture exactly (counter reaches the weight) or blends one step further toward it |
| Blender.StepAtEnd | src/main/java/com/programmersdiary/PictureBlender.java:121-124 | on or past the last picture, a tick is the same as a tick from the first picture with counter 0 |
| Blender.JumpAfterLast | src/main/java/com/programmersdiary/PictureBlender.java:121-132 | one tick after the last picture, the frame is the first picture already blended 1/weight toward the second |
| Blender.FirstPictureNotRevisited | src/main/java/com/programmersdiary/PictureBlender.java:121-129 | with two pictures or more, no tick lands on the first picture with counter 0 |
| Blender.SinglePictureStep | src/main/java/com/programmersdiary/PictureBlender.java:118-164 | a one-picture blender keeps showing that picture after a tick |
| Playback.Run | src/main/java/com/programmersdiary/PictureBlender.java:118-133 | any number of ticks keeps the pictures and the canvas size |
| Playback.RunAdd | src/main/java/com/programmersdiary/PictureBlender.java:118-133 | a ticks and then b more are a + b ticks |
| Playback.RunStep | src/main/java/com/programmersdiary/PictureBlender.java:118-133 | n ticks and then one more are n + 1 ticks |
| Playback.Fading | src/main/java/com/programmersdiary/PictureBlender.java:126-132 | k ticks into a crossfade, the index is kept, the counter has grown by k and the frame is the blend for that counter |
| Playback.FadeTo | src/main/java/com/programmersdiary/PictureBlender.java:126-132 | the same, with the counter reached given by name |
| Playback.Crossfade | src/main/java/com/programmersdiary/PictureBlender.java:126-142 | a crossfade away from any picture but the last completes after exactly `weight - counter` ticks, showing the next picture exactly |
| Playback.Slideshow | src/main/java/com/programmersdiary/PictureBlender.java:118-142 | from rest on picture i, k whole crossfades of `weight` ticks rest on picture i + k, up to the last picture |
| Playback.NextRest | src/main/java/com/programmersdiary/PictureBlender.java:126-142 | one whole crossfade from rest on picture i rests on picture i + 1 |
| Playback.AfterLastSkipsFirst | src/main/java/com/programmersdiary/PictureBlender.java:121-142 | `weight` ticks after resting on the last picture, the engine rests on the second picture, not the first |
| Playback.BackToLast | src/main/java/com/programmersdiary/PictureBlender.java:118-142 | resting on the last picture, (N−1)·weight ticks later the engine is in exactly the same state |
| Playback.Period | src/main/java/com/programmersdiary/PictureBlender.java:118-142 | the state one tick after the last picture recurs every (N−1)·weight ticks |
| Playback.SinglePictureStill | src/main/java/com/programmersdiary/PictureBlender.java:118-164 | a one-picture blender shows that picture forever |
| Playback.FromConstruction | src/main/java/com/programmersdiary/PictureBlender.java:70-74 | from construction, k whole crossfades rest on picture k |
| Playback.RedTowardBlue | src/main/java/com/programmersdiary/PictureBlender.java:149-162 | opaque red blended toward opaque blue gives opaque (r, 0, b) for the truncated levels r and b |
| Playback.UniformBlend | src/main/java/com/programmersdiary/PictureBlender.java:148-163 | blending two uniform pictures gives a uniform frame |
| Playback.RedBlueFading | src/main/java/com/programmersdiary/PictureBlender.java:144-163 | the example's first three ticks show uniform red-to-blue blends |
| Playback.RedBlueArrives | src/main/java/com/programmersdiary/PictureBlender.java:126-142 | the example's fourth tick shows the blue picture exactly, with counter 0 |
| Playback.TwoPictureExample | src/main/java/com/programmersdiary/PictureBlender.java:118-164 | at weight 4, ticks 1 to 3 show `0xFFBF003F`, `0xFF7F007F` and `0xFF3F00BF`; tick 4 shows blue |
| Screen.New | src/main/java/com/programmersdiary/Screen.java:12-17 | a new buffer has width·height entries, all 0 |
| Screen.Clear | src/main/java/com/programmersdiary/Screen.java:19-21 | every entry becomes 0 and the length is unchanged |
| Screen.CopyRow | src/main/java/com/programmersdiary/Screen.java:25 | row y of the frame replaces row y of the buffer; every other entry is kept |
| Screen.Rows | src/main/java/com/programmersdiary/Screen.java:24-26 | after the first `rows` rows, those rows come from the frame and the rest are as before |
| Screen.RowsCopyFrame | src/main/java/com/programmersdiary/Screen.java:23-27 | after all rows the buffer equals the frame, whatever it held before |
| Screen.ClearIrrelevant | src/main/java/com/programmersdiary/Screen.java:19-27 | clearing before rendering makes no difference |
| Screen.RenderIdempotent | src/main/java/com/programmersdiary/Screen.java:23-27 | rendering the same frame twice is the same as rendering it once |
| Screen.Render | src/main/java/com/programmersdiary/Screen.java:23-27 | after `render` the buffer equals the blender's frame element by element |
| FileFilter.Lower | src/main/java/com/programmersdiary/Main.java:99 | lower-casing keeps the length and maps each character on its own |
| FileFilter.IsImageName | src/main/java/com/programmersdiary/Main.java:98-102 | the filter lambda; accepted if and only if the name ends with `.png`, `.jpg`, `.jpeg`, `.gif` or `.bmp` up to case (`FileFilter.IsImageNameIgnoringCase`) |
| FileFilter.LowerCharSame | src/main/java/com/programmersdiary/Main.java:99 | two characters lower-case alike if and only if they are equal up to case |
| FileFilter.LowerSame | src/main/java/com/programmersdiary/Main.java:99 | two strings lower-case alike if and only if they are equal up to case |
| FileFilter.LowerEndsWith | src/main/java/com/programmersdiary/Main.java:99-101 | a lower-case suffix ends the lower-cased name if and only if the name ends with it up to case |
| FileFilter.ExtensionsLowerCase | src/main/java/com/programmersdiary/Main.java:100-101 | the five extensions are already lower case |
| FileFilter.IsImageNameAnyExtension | src/main/java/com/programmersdiary/Main.java:98-102 | a name is accepted if and only if its lower-cased form ends with one of `.png`, `.jpg`, `.jpeg`, `.gif`, `.bmp` |
| FileFilter.IsImageNameIgnoringCase | src/main/java/com/programmersdiary/Main.java:98-102 | a name is accepted if and only if it ends with one of the extensions up to case |
| FileFilter.CaseInsensitive | src/main/java/com/programmersdiary/Main.java:99 | names that differ only in letter case are accepted or rejected together |
| FileFilter.AcceptedExamples | src/main/java/com/programmersdiary/Main.java:98-102 | `Beach.JPG` and `scan.Jpeg` are accepted |
| FileFilter.DotExamples | src/main/java/com/programmersdiary/Main.java:98-102 | `.gif` is accepted; `png`, which has no dot, is not |
| FileFilter.LastCharacterRejects | src/main/java/com/programmersdiary/Main.java:98-102 | a name whose last character is not g, f or p in either case is rejected |
| FileFilter.RejectedExamples | src/main/java/com/programmersdiary/Main.java:98-102 | `notes.txt` and `photo.png.txt` are rejected |
| FileFilter.ImageFiles | src/main/java/com/programmersdiary/Main.java:98-102 | the listing keeps exactly the accepted names |
| FileFilter.ImageFilesAppend | src/main/java/com/programmersdiary/Main.java:98-102 | filtering a concatenation filters each part, so accepted names keep their listing order |
| App.Initial | src/main/java/com/programmersdiary/Main.java:35 | at start the weight is 60, what the spinner's initial 1 second converts to, and there is no host |
| App.SecondsToTicks | src/main/java/com/programmersdiary/Main.java:114-117 | the weight is a whole number of seconds at 60 ticks each; for spinner values 1..100 it lies in 60..6000 |
| App.UpdateSpeed | src/main/java/com/programmersdiary/Main.java:114-117 | the weight becomes exactly the chosen number of seconds times 60 ticks, and the host is untouched |
| App.SelectFolder | src/main/java/com/programmersdiary/Main.java:96-110 | with no accepted name, or when no accepted file decodes, nothing changes; otherwise the session becomes the blender built from the accepted files with a fresh all-zero screen, and the weight is set from the spinner's seconds; the host exists afterwards if and only if it existed before or some accepted name decodes |
| App.Update | src/main/java/com/programmersdiary/Main.java:179-182 | before the host exists nothing changes; afterwards exactly one `transition` at the current weight |
| App.Updates | src/main/java/com/programmersdiary/Main.java:179-182 | repeated updates keep the weight and never create or drop the host |
| App.UpdatesBeforeHost | src/main/java/com/programmersdiary/Main.java:179-182 | any number of updates before the host exists change nothing |
| App.UpdatesRun | src/main/java/com/programmersdiary/Main.java:179-182 | n updates are n transitions of the blender at the current weight; the screen is untouched |
| App.Render | src/main/java/com/programmersdiary/Main.java:162-177 | before the host exists, or without a buffer strategy, nothing changes and nothing is shown; otherwise the screen and the shown pixels equal the blender's frame |
| App.CatchUp | src/main/java/com/programmersdiary/Main.java:153-156 | from a debt of delta ≥ 0 ticks, exactly ⌊delta⌋ updates run and 0 ≤ rest < 1 is left; a debt below 1 runs none |
| App.TicksOwed | src/main/java/com/programmersdiary/Main.java:147-151 | the ticks owed for the measured intervals are never negative |
| App.Pass | src/main/java/com/programmersdiary/Main.java:153-157 | one pass of the loop advances the blender by exactly ⌊delta⌋ ticks and leaves the fraction; with a buffer strategy the screen then holds the advanced frame, without one it is left as it was |
| App.Run | src/main/java/com/programmersdiary/Main.java:145-158 | however time is sliced into intervals, the blender advances by the whole part of the total time in ticks, and the leftover is below one tick |

## Left out

- Image decoding (`PictureBlender.java:43-51`) is a foreign library. It is a
  parameter returning an optional raster. An `IOException` and a `null`
  result are treated alike.
- Graphics2D is library internals: the black fill, the drawing, the rendering
  hints, the `TYPE_INT_RGB` canvas (`PictureBlender.java:84-104`). It is the
  `paint` parameter. Only the canvas size, the centring offsets and the
  row-major read-back are modelled.
- Blender.Lerp: computes the exact rational blend truncated toward zero,
  instead of the `double` product `(counter / weight)`. Floating-point
  rounding of the product is not modelled.
- Threads and lifecycle are left out: `start`, `stop`, `join`, the `running`
  flag and the loop's termination. The static `transitionWeight` shared
  between threads is also left out. The weight is a parameter of each tick.
- App.TicksOwed: uses exact `real` arithmetic for the accumulated
  `(now - lastTime) / ns`. `System.nanoTime` samples become a sequence of
  measured intervals.
- Swing and AWT presentation are left out: `JFrame`, `JFileChooser`, the
  spinner listeners, `BufferStrategy` creation, `drawImage` scaling and
  `scale`.
- The status-label text is cosmetic and is left out.
- A `null` result from `listFiles` is left out. The listing is a sequence of
  names.
- Re-choosing a folder is modelled only as a replacement of the session. The
  code also starts another run-loop thread while the first keeps running; both
  call `update` on the same blender, so after a re-choice the slideshow
  advances about twice per 1/60 s. That second loop is left out.
- Java `int` overflow of `width * height` and of pixel offsets is left out.
  Integers are unbounded, and the canvas is assumed to fit.
- FileFilter.Lower: lower-cases the ASCII letters A–Z only. Java's
  `toLowerCase` follows the default locale and all of Unicode.
- That `render` only reads the frame holds by construction: the frame is an
  immutable sequence passed by value, so no lemma states it.
- The `pictures.get(0)` exception at construction with no decoded image is
  modelled as the `EmptyGallery` failure of `Blender.New`.
