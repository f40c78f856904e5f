/** Many ticks of the crossfade engine in a row, at a fixed weight: how long
    one crossfade takes, where a slideshow is after whole crossfades, and
    the period of the loop the engine settles into. */
module Playback {
  import opened Argb
  import opened Blender
  import opened Arith

  /** `n` consecutive `transition(weight)` calls. */
  function Run(s: State, weight: int, n: nat): (r: State)
    requires Valid(s)
    ensures Valid(r)
    ensures r.pictures == s.pictures && r.width == s.width && r.height == s.height
    decreases n
  {
    if n == 0 then s else Run(Transition(s, weight), weight, n - 1)
  }

  /** Running `a` ticks and then `b` more is running `a + b` ticks. */
  lemma {:induction false} RunAdd(s: State, weight: int, a: nat, b: nat)
    requires Valid(s)
    ensures Run(Run(s, weight, a), weight, b) == Run(s, weight, a + b)
    decreases a
  {
    if a > 0 {
      var t := Transition(s, weight);
      RunAdd(t, weight, a - 1, b);
      assert Run(s, weight, a) == Run(t, weight, a - 1);
      assert Run(s, weight, a + b) == Run(t, weight, (a - 1) + b);
    }
  }

  /** `n` ticks, then one more. */
  lemma RunStep(s: State, weight: int, n: nat)
    requires Valid(s)
    ensures Transition(Run(s, weight, n), weight) == Run(s, weight, n + 1)
  {
    RunAdd(s, weight, n, 1);
  }

  /** Midway through a crossfade away from any picture but the last: the
      index stays put, the counter has advanced by the number of ticks and
      the frame is the blend for that counter. */
  lemma Fading(s: State, weight: int, k: nat)
    requires Valid(s) && |s.pictures| >= 2 && s.index < |s.pictures| - 1
    requires 1 <= k && s.counter + k < weight
    ensures Run(s, weight, k) ==
      s.(counter := s.counter + k,
         frame := BlendFrame(s.pictures[s.index], s.pictures[s.index + 1], s.counter + k, weight))
  {
    FadeTo(s, weight, k, s.counter + k);
  }

  /** `Fading`, with the counter reached named `c`. */
  lemma {:induction false} FadeTo(s: State, weight: int, k: nat, c: int)
    requires Valid(s) && |s.pictures| >= 2 && s.index < |s.pictures| - 1
    requires 1 <= k && c == s.counter + k && c < weight
    ensures Run(s, weight, k) ==
      s.(counter := c, frame := BlendFrame(s.pictures[s.index], s.pictures[s.index + 1], c, weight))
    decreases k
  {
    if k == 1 {
      OneStep(s, weight, c);
    } else {
      var t := Transition(s, weight);
      OneStep(s, weight, s.counter + 1);
      FadeTo(t, weight, k - 1, c);
      Reblend(t, s, c, weight);
    }
  }

  /** One tick inside a crossfade, with the counter reached named `c`. */
  lemma OneStep(s: State, weight: int, c: int)
    requires Valid(s) && |s.pictures| >= 2 && s.index < |s.pictures| - 1
    requires c == s.counter + 1 && c < weight
    ensures Transition(s, weight) ==
      s.(counter := c, frame := BlendFrame(s.pictures[s.index], s.pictures[s.index + 1], c, weight))
  {
    StepInside(s, weight);
  }

  /** Blending depends only on the pictures and the index, not on the
      counter or frame a state had before. */
  lemma Reblend(m: State, s: State, c: int, weight: int)
    requires Valid(s) && 0 <= s.index && s.index + 1 < |s.pictures| && weight > 0
    requires m.pictures == s.pictures && m.width == s.width && m.height == s.height
    requires m.index == s.index
    ensures m.(counter := c, frame := BlendFrame(m.pictures[m.index], m.pictures[m.index + 1], c, weight)) ==
      s.(counter := c, frame := BlendFrame(s.pictures[s.index], s.pictures[s.index + 1], c, weight))
  {
  }

  /** A crossfade away from any picture but the last completes after
      exactly `weight - counter` ticks, with the next picture shown exactly
      and the counter back at 0. */
  lemma Crossfade(s: State, weight: int)
    requires Valid(s) && |s.pictures| >= 2 && s.index < |s.pictures| - 1
    requires 0 <= s.counter < weight
    ensures Run(s, weight, weight - s.counter) ==
      s.(index := s.index + 1, counter := 0, frame := s.pictures[s.index + 1])
  {
    var k := weight - s.counter;
    if k == 1 {
      StepInside(s, weight);
    } else {
      Fading(s, weight, k - 1);
      RunStep(s, weight, k - 1);
      StepInside(Run(s, weight, k - 1), weight);
    }
  }

  /** A state resting on picture `i`: counter 0, picture `i` on display. */
  predicate RestsOn(s: State, i: int)
    requires Valid(s)
  {
    0 <= i < |s.pictures| && s.index == i && s.counter == 0 && s.frame == s.pictures[i]
  }

  /** From rest on picture `i`, `k` whole crossfades of `weight` ticks each
      rest on picture `i + k`, as long as that is not past the last one. */
  lemma {:induction false} Slideshow(s: State, weight: int, i: int, k: nat)
    requires Valid(s) && |s.pictures| >= 2 && weight >= 1
    requires RestsOn(s, i) && i + k <= |s.pictures| - 1
    ensures RestsOn(Run(s, weight, k * weight), i + k)
    decreases k
  {
    if k == 0 {
      assert Run(s, weight, k * weight) == s;
    } else {
      MulNonNegative(k - 1, weight);
      var j := (k - 1) * weight;
      var u := Run(s, weight, weight);
      NextRest(s, weight, i);
      Slideshow(u, weight, i + 1, k - 1);
      RunAdd(s, weight, weight, j);
      assert weight + j == k * weight by {
        MulSucc(k - 1, weight);
      }
      assert Run(s, weight, weight + j) == Run(s, weight, k * weight);
    }
  }

  /** One whole crossfade from rest on picture `i` rests on picture
      `i + 1`. */
  lemma NextRest(s: State, weight: int, i: int)
    requires Valid(s) && |s.pictures| >= 2 && weight >= 1
    requires RestsOn(s, i) && i + 1 <= |s.pictures| - 1
    ensures RestsOn(Run(s, weight, weight), i + 1)
  {
    Crossfade(s, weight);
    assert Run(s, weight, weight - s.counter) == Run(s, weight, weight);
  }

  /** From the last picture, `weight` ticks land on the second picture,
      not the first: the first picture is passed over within one crossfade. */
  lemma AfterLastSkipsFirst(s: State, weight: int)
    requires Valid(s) && |s.pictures| >= 2 && weight >= 2
    requires RestsOn(s, |s.pictures| - 1)
    ensures RestsOn(Run(s, weight, weight), 1)
  {
    JumpAfterLast(s, weight);
    var t := Transition(s, weight);
    Crossfade(t, weight);
    RunAdd(s, weight, 1, weight - 1);
  }

  /** Two states over the same pictures that rest on the same picture are
      the same state. */
  lemma RestsOnSame(s: State, t: State, i: int)
    requires Valid(s) && Valid(t)
    requires s.pictures == t.pictures && s.width == t.width && s.height == t.height
    requires RestsOn(s, i) && RestsOn(t, i)
    ensures s == t
  {
  }

  /** Resting on the last picture, `(N - 1) * weight` ticks later the
      engine rests on the last picture again, in exactly the same state. */
  lemma BackToLast(s: State, weight: int)
    requires Valid(s) && |s.pictures| >= 2 && weight >= 2
    requires RestsOn(s, |s.pictures| - 1)
    ensures Run(s, weight, (|s.pictures| - 1) * weight) == s
  {
    var n := |s.pictures|;
    var b := (n - 2) * weight;
    MulSucc(n - 2, weight);
    AfterLastSkipsFirst(s, weight);
    var u := Run(s, weight, weight);
    Slideshow(u, weight, 1, n - 2);
    RunAdd(s, weight, weight, b);
    RestsOnSame(Run(u, weight, b), s, n - 1);
  }

  /** The loop the engine settles into. With `N >= 2` pictures and a weight
      of at least 2, the state one tick after resting on the last picture
      recurs every `(N - 1) * weight` ticks: the cycle is one crossfade
      shorter than `N` full crossfades, because the last picture is never
      faded out. */
  lemma Period(s: State, weight: int)
    requires Valid(s) && |s.pictures| >= 2 && weight >= 2
    requires RestsOn(s, |s.pictures| - 1)
    ensures var t := Transition(s, weight);
      Run(t, weight, (|s.pictures| - 1) * weight) == t
  {
    var m := (|s.pictures| - 1) * weight;
    BackToLast(s, weight);
    RunAdd(s, weight, 1, m);
    RunAdd(s, weight, m, 1);
    assert Run(s, weight, 1) == Transition(s, weight);
  }

  /** A blender with a single picture shows that picture forever. */
  lemma {:induction false} SinglePictureStill(s: State, weight: int, n: nat)
    requires Valid(s) && |s.pictures| == 1 && s.frame == s.pictures[0]
    ensures Run(s, weight, n).frame == s.pictures[0]
    decreases n
  {
    if n > 0 {
      SinglePictureStep(s, weight);
      SinglePictureStill(Transition(s, weight), weight, n - 1);
    }
  }

  /** From construction the slideshow rests on picture `k` after `k` whole
      crossfades, up to the last picture. */
  lemma FromConstruction<F>(files: seq<F>, decode: Canvas.Decoder<F>, paint: Canvas.Painter,
                            weight: int, k: nat)
    requires New(files, decode, paint).Success?
    requires weight >= 1
    requires k < |New(files, decode, paint).value.pictures|
    ensures var s := New(files, decode, paint).value;
      RestsOn(Run(s, weight, k * weight), k)
  {
    var s := New(files, decode, paint).value;
    if |s.pictures| >= 2 {
      Slideshow(s, weight, 0, k);
      assert 0 + k == k;
    } else {
      assert k == 0 && Run(s, weight, 0 * weight) == s;
    }
  }

  /** One pixel of the two-picture example below: opaque red blended
      toward opaque blue, `counter / 4` of the way, given the red and blue
      levels the truncating interpolation yields. */
  lemma RedTowardBlue(counter: int, r: bv8, b: bv8)
    requires Lerp(255, 0, counter, 4) == r as int && Lerp(0, 255, counter, 4) == b as int
    ensures BlendPixel(0xFFFF0000, 0xFF0000FF, counter, 4) == Pack(r, 0, b, 255)
  {
    var p := BlendPixel(0xFFFF0000, 0xFF0000FF, counter, 4);
    BlendPixelChannels(0xFFFF0000, 0xFF0000FF, counter, 4);
    assert Red(0xFFFF0000) == 255 && Green(0xFFFF0000) == 0;
    assert Blue(0xFFFF0000) == 0 && Alpha(0xFFFF0000) == 255;
    assert Red(0xFF0000FF) == 0 && Green(0xFF0000FF) == 0;
    assert Blue(0xFF0000FF) == 255 && Alpha(0xFF0000FF) == 255;
    LerpSame(0, counter, 4);
    LerpSame(255, counter, 4);
    ChannelOfLevel(r);
    ChannelOfLevel(b);
    ChannelsDetermineWord(p, Pack(r, 0, b, 255));
  }

  /** A blend of two uniform pictures is uniform. */
  lemma UniformBlend(cur: Word, next: Word, counter: int, weight: int, n: nat, e: Word)
    requires weight > 0 && BlendPixel(cur, next, counter, weight) == e
    ensures BlendFrame(seq(n, _ => cur), seq(n, _ => next), counter, weight) == seq(n, _ => e)
  {
  }

  /** The start of the two-picture example: 2×2 pictures, one opaque red
      and one opaque blue, the red one on display. */
  function RedBlue(): (s: State)
    ensures Valid(s) && |s.pictures| == 2
  {
    var red: Word := 0xFFFF0000;
    var blue: Word := 0xFF0000FF;
    State([[red, red, red, red], [blue, blue, blue, blue]], 2, 2, 0, 0, [red, red, red, red])
  }

  /** At weight 4 the first three ticks of the example show a uniform
      blend of red toward blue, each channel truncated. */
  lemma RedBlueFading(c: int, r: bv8, b: bv8)
    requires 1 <= c <= 3
    requires Lerp(255, 0, c, 4) == r as int && Lerp(0, 255, c, 4) == b as int
    ensures var e := Pack(r, 0, b, 255);
      Run(RedBlue(), 4, c).frame == [e, e, e, e]
  {
    var s := RedBlue();
    var e := Pack(r, 0, b, 255);
    RedTowardBlue(c, r, b);
    assert s.pictures[0] == seq(4, _ => 0xFFFF0000);
    assert s.pictures[1] == seq(4, _ => 0xFF0000FF);
    UniformBlend(0xFFFF0000, 0xFF0000FF, c, 4, 4, e);
    var f := BlendFrame(s.pictures[0], s.pictures[1], c, 4);
    assert f == seq(4, _ => e);
    FadeTo(s, 4, c, c);
    assert Run(s, 4, c).frame == f;
    assert seq(4, _ => e) == [e, e, e, e];
  }

  /** The fourth tick of the example completes the crossfade: the blue
      picture is shown exactly. */
  lemma RedBlueArrives()
    ensures Run(RedBlue(), 4, 4) ==
      RedBlue().(index := 1, counter := 0, frame := RedBlue().pictures[1])
  {
    var s := RedBlue();
    assert RestsOn(s, 0);
    NextRest(s, 4, 0);
    RestsOnSame(Run(s, 4, 4), s.(index := 1, counter := 0, frame := s.pictures[1]), 1);
  }

  /** The two-picture example at weight 4: the three blended frames
      truncate each channel (red/blue levels 191/63, 127/127, 63/191), and
      the fourth tick shows the blue picture exactly. */
  lemma TwoPictureExample()
    ensures Run(RedBlue(), 4, 1).frame == [0xFFBF003F, 0xFFBF003F, 0xFFBF003F, 0xFFBF003F]
    ensures Run(RedBlue(), 4, 2).frame == [0xFF7F007F, 0xFF7F007F, 0xFF7F007F, 0xFF7F007F]
    ensures Run(RedBlue(), 4, 3).frame == [0xFF3F00BF, 0xFF3F00BF, 0xFF3F00BF, 0xFF3F00BF]
    ensures Run(RedBlue(), 4, 4) ==
      RedBlue().(index := 1, counter := 0, frame := RedBlue().pictures[1])
  {
    RedBlueFading(1, 191, 63);
    assert Pack(191, 0, 63, 255) == 0xFFBF003F;
    RedBlueFading(2, 127, 127);
    assert Pack(127, 0, 127, 255) == 0xFF7F007F;
    RedBlueFading(3, 63, 191);
    assert Pack(63, 0, 191, 255) == 0xFF3F00BF;
    RedBlueArrives();
  }
}
