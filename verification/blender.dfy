/** The crossfade engine of `PictureBlender`: a fixed, ordered list of
    equal-sized pictures, the index of the current one, a tick counter and
    the frame on display. One `Transition` either commits a switch to the
    next picture or writes into the frame a per-channel linear blend of the
    current picture and the next one. */
module Blender {
  import opened Argb
  import opened Arith
  import opened Wrappers
  import opened Canvas

  datatype State = State(
    pictures: seq<seq<Word>>,
    width: nat,
    height: nat,
    index: int,
    counter: int,
    frame: seq<Word>)

  /** Why construction fails: no file decoded, so `pictures.get(0)` throws. */
  datatype Error = EmptyGallery

  /** What holds of every state a blender is in: a W×H frame, every picture
      as long as the frame, an index into the list and a counter that has
      not gone negative. */
  predicate Valid(s: State) {
    && |s.frame| == s.width * s.height
    && (forall k :: 0 <= k < |s.pictures| ==> |s.pictures[k]| == |s.frame|)
    && (|s.pictures| > 0 ==> 0 <= s.index < |s.pictures|)
    && s.counter >= 0
  }

  /** The constructor: load, size the canvas, normalise, then show the
      first picture. */
  function New<F>(files: seq<F>, decode: Decoder<F>, paint: Painter): (r: Result<State, Error>)
    ensures r.Success? <==> exists i :: 0 <= i < |files| && decode(files[i]).Some?
    ensures r.Success? ==>
      var s := r.value;
      var images := LoadAll(files, decode);
      && Valid(s)
      && (s.width, s.height) == CanvasSize(images)
      && s.width > 0 && s.height > 0
      && |s.pictures| == |images| > 0
      && (forall k :: 0 <= k < |s.pictures| ==>
            s.pictures[k] == Normalize(images[k], s.width, s.height, paint))
      && s.index == 0 && s.counter == 0
      && s.frame == s.pictures[0]
  {
    var images := LoadAll(files, decode);
    LoadAllEmpty(files, decode);
    var (width, height) := CanvasSize(images);
    var pictures := ProcessAll(images, width, height, paint);
    if |pictures| == 0 then Failure(EmptyGallery)
    else Success(State(pictures, width, height, 0, 0, pictures[0]))
  }

  /** One channel of `progressTransition`:
      `(int) (cur + (next - cur) * (counter / weight))`, with the quotient
      taken exactly and truncated toward zero as Java's cast does. */
  function Lerp(cur: int, next: int, counter: int, weight: int): int
    requires weight > 0
  {
    TruncDiv(cur * weight + (next - cur) * counter, weight)
  }

  /** `Math.max(0, Math.min(255, x))`: the nearest level in 0..255. */
  function Clamp(x: int): (c: Channel)
    ensures 0 <= x < 256 ==> c as int == x
    ensures x < 0 ==> c == 0
    ensures x > 255 ==> c == 255
  {
    ChannelOf(Max(0, Min(255, x)))
  }

  predicate Between(x: int, a: int, b: int) {
    Min(a, b) <= x <= Max(a, b)
  }

  /** With progress between 0 and 1 the interpolated channel never leaves
      the range spanned by its two ends. */
  lemma LerpBetween(cur: int, next: int, counter: int, weight: int)
    requires 0 <= cur && 0 <= next
    requires weight > 0 && 0 <= counter <= weight
    ensures Between(Lerp(cur, next, counter, weight), cur, next)
  {
    var n := cur * weight + (next - cur) * counter;
    var lo := Min(cur, next);
    var hi := Max(cur, next);
    WeightedSumBounds(cur, next, counter, weight);
    MulNonNegative(lo, weight);
    TruncDivNonNegative(n, weight);
    QuotientBetween(n, weight, lo, hi);
  }

  /** The numerator of `Lerp` is a weighted sum of the two ends, so it lies
      between `weight` times the smaller and `weight` times the larger. */
  lemma WeightedSumBounds(cur: int, next: int, counter: int, weight: int)
    requires 0 <= counter <= weight
    ensures var n := cur * weight + (next - cur) * counter;
      Min(cur, next) * weight <= n <= Max(cur, next) * weight
  {
    var n := cur * weight + (next - cur) * counter;
    var rest := weight - counter;
    assert n == cur * rest + next * counter;
    var lo := Min(cur, next);
    var hi := Max(cur, next);
    MulMonotone(lo, cur, rest);
    MulMonotone(lo, next, counter);
    MulMonotone(cur, hi, rest);
    MulMonotone(next, hi, counter);
    assert lo * weight == lo * rest + lo * counter;
    assert hi * weight == hi * rest + hi * counter;
  }

  /** Interpolating a channel with itself gives it back, whatever the
      progress. */
  lemma LerpSame(c: int, counter: int, weight: int)
    requires weight > 0
    ensures Lerp(c, c, counter, weight) == c
  {
    assert c * weight + (c - c) * counter == c * weight;
    if c >= 0 {
      TruncDivNonNegative(c * weight, weight);
      DivUnique(c * weight, weight, c, 0);
    } else {
      TruncDivNegate(-c * weight, weight);
      TruncDivNonNegative(-c * weight, weight);
      DivUnique(-c * weight, weight, -c, 0);
    }
  }

  /** A channel already in 0..255 passes the clamp unchanged. */
  lemma ClampKeeps(x: int)
    requires 0 <= x < 256
    ensures Clamp(x) as int == x
  {
  }

  /** A channel interpolated with progress in [0, 1] and then clamped
      stays between its two ends: the clamp never bites. */
  lemma BlendChannelBetween(a: Channel, b: Channel, counter: int, weight: int)
    requires weight > 0 && 0 <= counter <= weight
    ensures Between(Clamp(Lerp(a as int, b as int, counter, weight)) as int, a as int, b as int)
  {
    LerpBetween(a as int, b as int, counter, weight);
    ClampBetween(Lerp(a as int, b as int, counter, weight), a as int, b as int);
  }

  lemma ClampBetween(x: int, a: int, b: int)
    requires 0 <= a < 256 && 0 <= b < 256 && Between(x, a, b)
    ensures Between(Clamp(x) as int, a, b)
  {
    ClampKeeps(x);
  }

  /** A channel blended with itself is left as it is. */
  lemma BlendChannelSame(a: Channel, counter: int, weight: int)
    requires weight > 0
    ensures Clamp(Lerp(a as int, a as int, counter, weight)) == a
  {
    var x := Lerp(a as int, a as int, counter, weight);
    LerpSame(a as int, counter, weight);
    assert x == a as int;
    ClampKeeps(x);
  }

  /** Both facts about one blended channel, for any progress. */
  lemma BlendChannel(a: Channel, b: Channel, counter: int, weight: int)
    requires weight > 0
    ensures 0 <= counter <= weight ==>
      Between(Clamp(Lerp(a as int, b as int, counter, weight)) as int, a as int, b as int)
    ensures a == b ==> Clamp(Lerp(a as int, b as int, counter, weight)) == a
  {
    if 0 <= counter <= weight {
      BlendChannelBetween(a, b, counter, weight);
    }
    if a == b {
      BlendChannelSame(a, counter, weight);
    }
  }

  /** Every channel of `p` lies between the same channel of `a` and `b`. */
  predicate ChannelsBetween(p: Word, a: Word, b: Word) {
    && Between(Red(p) as int, Red(a) as int, Red(b) as int)
    && Between(Green(p) as int, Green(a) as int, Green(b) as int)
    && Between(Blue(p) as int, Blue(a) as int, Blue(b) as int)
    && Between(Alpha(p) as int, Alpha(a) as int, Alpha(b) as int)
  }

  /** The body of the loop in `progressTransition`: unpack both pixels,
      interpolate and clamp each channel, pack the result. */
  function BlendPixel(cur: Word, next: Word, counter: int, weight: int): (p: Word)
    requires weight > 0
    ensures 0 <= counter <= weight ==> ChannelsBetween(p, cur, next)
    ensures cur == next ==> p == cur
  {
    var fa := Lerp(Alpha(cur) as int, Alpha(next) as int, counter, weight);
    var fb := Lerp(Blue(cur) as int, Blue(next) as int, counter, weight);
    var fg := Lerp(Green(cur) as int, Green(next) as int, counter, weight);
    var fr := Lerp(Red(cur) as int, Red(next) as int, counter, weight);
    BlendChannel(Alpha(cur), Alpha(next), counter, weight);
    BlendChannel(Blue(cur), Blue(next), counter, weight);
    BlendChannel(Green(cur), Green(next), counter, weight);
    BlendChannel(Red(cur), Red(next), counter, weight);
    PackUnpack(cur);
    Pack(Clamp(fr), Clamp(fg), Clamp(fb), Clamp(fa))
  }

  /** Each channel of a blended pixel is the clamped interpolation of that
      channel of its two sources; no channel leaks into another. */
  lemma BlendPixelChannels(cur: Word, next: Word, counter: int, weight: int)
    requires weight > 0
    ensures var p := BlendPixel(cur, next, counter, weight);
      && Red(p) == Clamp(Lerp(Red(cur) as int, Red(next) as int, counter, weight))
      && Green(p) == Clamp(Lerp(Green(cur) as int, Green(next) as int, counter, weight))
      && Blue(p) == Clamp(Lerp(Blue(cur) as int, Blue(next) as int, counter, weight))
      && Alpha(p) == Clamp(Lerp(Alpha(cur) as int, Alpha(next) as int, counter, weight))
  {
  }

  /** `progressTransition` over a whole picture: pixel i of the result
      blends pixel i of `cur` toward pixel i of `next`. */
  function BlendFrame(cur: seq<Word>, next: seq<Word>, counter: int, weight: int)
    : (frame: seq<Word>)
    requires |cur| == |next| && weight > 0
    ensures |frame| == |cur|
  {
    seq(|cur|, i requires 0 <= i < |cur| => BlendPixel(cur[i], next[i], counter, weight))
  }

  /** A blended frame lies channel by channel between its two sources, and
      keeps every pixel on which they agree. */
  lemma BlendFrameChannels(cur: seq<Word>, next: seq<Word>, counter: int, weight: int)
    requires |cur| == |next| && weight > 0
    ensures var frame := BlendFrame(cur, next, counter, weight);
      && (0 <= counter <= weight ==>
        forall i :: 0 <= i < |frame| ==> ChannelsBetween(frame[i], cur[i], next[i]))
      && (forall i :: 0 <= i < |frame| && cur[i] == next[i] ==> frame[i] == cur[i])
  {
  }

  /** `switchToNextImage`: advance the index (wrapping at the end of the
      list), restart the counter and show the new picture exactly. */
  function SwitchToNext(s: State): (r: State)
    requires Valid(s) && |s.pictures| > 0
    ensures Valid(r) && r.pictures == s.pictures
    ensures r.index == (s.index + 1) % |s.pictures|
    ensures r.counter == 0 && r.frame == s.pictures[r.index]
  {
    var index := if s.index + 1 >= |s.pictures| then 0 else s.index + 1;
    NextIndex(s.index, |s.pictures|);
    s.(index := index, counter := 0, frame := s.pictures[index])
  }

  /** `(index + 1) % size` for an index into a list of `size` entries: the
      next index, or 0 past the end. */
  lemma NextIndex(index: int, size: int)
    requires 0 <= index < size
    ensures (index + 1) % size == if index + 1 >= size then 0 else index + 1
  {
    if index + 1 >= size {
      DivUnique(index + 1, size, 1, 0);
    } else {
      DivUnique(index + 1, size, 0, index + 1);
    }
  }

  /** `progressTransition`: blend the current picture toward the next one,
      `counter / weight` of the way; index and counter are kept. */
  function Progress(s: State, weight: int): (r: State)
    requires Valid(s) && |s.pictures| > 0 && weight > 0
    ensures Valid(r) && r.pictures == s.pictures
    ensures r.index == s.index && r.counter == s.counter
    ensures r.frame == BlendFrame(s.pictures[s.index], s.pictures[(s.index + 1) % |s.pictures|],
                                  s.counter, weight)
  {
    var next := (s.index + 1) % |s.pictures|;
    s.(frame := BlendFrame(s.pictures[s.index], s.pictures[next], s.counter, weight))
  }

  /** While the counter is within the weight, every channel of the frame
      `Progress` writes lies between the current picture and the next one
      (the first picture after the last). */
  lemma ProgressBetween(s: State, weight: int)
    requires Valid(s) && |s.pictures| > 0 && weight > 0
    requires 0 <= s.counter <= weight
    ensures var next := s.pictures[(s.index + 1) % |s.pictures|];
      var r := Progress(s, weight);
      forall i :: 0 <= i < |r.frame| ==>
        ChannelsBetween(r.frame[i], s.pictures[s.index][i], next[i])
  {
    var next := (s.index + 1) % |s.pictures|;
    BlendFrameChannels(s.pictures[s.index], s.pictures[next], s.counter, weight);
  }

  /** `transition(weight)`: one tick of the engine. */
  function Transition(s: State, weight: int): (r: State)
    requires Valid(s)
    ensures Valid(r)
    ensures r.pictures == s.pictures && r.width == s.width && r.height == s.height
    ensures |s.pictures| == 0 ==> r == s
    ensures |s.pictures| > 0 && weight >= 1 ==>
      0 <= r.index < |s.pictures| && 0 <= r.counter < weight
  {
    if |s.pictures| == 0 then s
    else
      var s' := if s.index >= |s.pictures| - 1 then s.(index := 0, counter := 0) else s;
      var s' := s'.(counter := s'.counter + 1);
      if s'.counter >= weight then SwitchToNext(s')
      else Progress(s', weight)
  }

  /** What the frame shows: the current picture exactly when the counter is
      0, and otherwise the current picture blended `counter / weight` of the
      way toward the one after it, which is never the first picture again. */
  predicate Shows(s: State, weight: int)
    requires Valid(s) && |s.pictures| > 0 && weight > 0
  {
    if s.counter == 0 then s.frame == s.pictures[s.index]
    else
      && s.index + 1 < |s.pictures|
      && s.frame == BlendFrame(s.pictures[s.index], s.pictures[s.index + 1], s.counter, weight)
  }

  /** A freshly built blender shows its first picture. */
  lemma NewShows<F>(files: seq<F>, decode: Decoder<F>, paint: Painter, weight: int)
    requires New(files, decode, paint).Success? && weight > 0
    ensures Shows(New(files, decode, paint).value, weight)
  {
  }

  /** With two pictures or more every tick leaves the frame showing either
      a picture or a blend of two neighbours `k` and `k + 1`: the last
      picture is never blended into the first. */
  lemma TransitionShows(s: State, weight: int)
    requires Valid(s) && |s.pictures| >= 2 && weight > 0
    ensures Shows(Transition(s, weight), weight)
  {
    var i := if s.index >= |s.pictures| - 1 then 0 else s.index;
    NextIndex(i, |s.pictures|);
  }

  /** A tick from any picture but the last either blends one step further
      toward the next picture or, once the counter reaches the weight,
      switches to that picture exactly; the index never wraps. */
  lemma StepInside(s: State, weight: int)
    requires Valid(s) && |s.pictures| >= 2 && s.index < |s.pictures| - 1
    ensures Transition(s, weight) ==
      if s.counter + 1 >= weight then
        s.(index := s.index + 1, counter := 0, frame := s.pictures[s.index + 1])
      else
        s.(counter := s.counter + 1,
           frame := BlendFrame(s.pictures[s.index], s.pictures[s.index + 1], s.counter + 1, weight))
  {
    NextIndex(s.index, |s.pictures|);
  }

  /** On the last picture (or past it) a tick first rewinds to the first
      picture with a fresh counter, and only then counts. */
  lemma StepAtEnd(s: State, weight: int)
    requires Valid(s) && |s.pictures| > 0 && s.index >= |s.pictures| - 1
    ensures Transition(s, weight) == Transition(s.(index := 0, counter := 0), weight)
  {
  }

  /** The jump at the end of the list: one tick after the last picture is
      shown, the frame is the first picture already blended `1 / weight`
      toward the second, with no crossfade from the last picture at all. */
  lemma JumpAfterLast(s: State, weight: int)
    requires Valid(s) && |s.pictures| >= 2 && weight >= 2
    requires s.index == |s.pictures| - 1
    ensures Transition(s, weight) ==
      s.(index := 0, counter := 1,
         frame := BlendFrame(s.pictures[0], s.pictures[1], 1, weight))
  {
    NextIndex(0, |s.pictures|);
  }

  /** With two pictures or more, no tick ever lands back on the first
      picture with the counter at 0: its exact frame is shown only once,
      right after construction. */
  lemma FirstPictureNotRevisited(s: State, weight: int)
    requires Valid(s) && |s.pictures| >= 2
    ensures Transition(s, weight).index == 0 ==> Transition(s, weight).counter >= 1
  {
  }

  /** A blender with a single picture keeps showing that picture. */
  lemma SinglePictureStep(s: State, weight: int)
    requires Valid(s) && |s.pictures| == 1 && s.frame == s.pictures[0]
    ensures Transition(s, weight).frame == s.pictures[0]
  {
    var p := s.pictures[0];
    if 1 < weight {
      var f := BlendFrame(p, p, 1, weight);
      assert f == p;
    }
  }
}
