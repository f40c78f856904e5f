/** The parts of `Main` that drive the core: choosing a folder builds the
    blender and the screen (the "host"), the speed control sets the
    transition weight, and the run loop calls `update` at a fixed 60 ticks
    per second, catching up on elapsed time, then renders. Windows, dialogs
    and threads are left to the caller: the folder listing, the decoder,
    the drawing, the elapsed time and whether a buffer strategy exists are
    parameters. */
module App {
  import opened Wrappers
  import opened Argb
  import Canvas
  import Blender
  import Playback
  import Screen
  import FileFilter

  /** Logical updates per second. */
  const TicksPerSecond: int := 60

  /** `ns` in `run`: nanoseconds per logical update. */
  const NanosPerTick: real := 1000000000.0 / 60.0

  /** What a folder choice builds: the blender and the screen that reads
      its frame. */
  datatype Session = Session(blender: Blender.State, screen: Screen.Buffer)

  /** `Main`'s state as far as the core sees it: the static
      `transitionWeight` and, once `hostInitialized`, the session. */
  datatype Host = Host(weight: int, session: Option<Session>)

  predicate Valid(h: Host) {
    && h.weight >= 1
    && (h.session.Some? ==>
      var s := h.session.value;
      && Blender.Valid(s.blender) && |s.blender.pictures| > 0
      && Screen.Valid(s.screen)
      && s.screen.width == s.blender.width && s.screen.height == s.blender.height)
  }

  /** At start-up: weight 60 and no host yet. */
  function Initial(): (h: Host)
    ensures Valid(h) && h.session.None?
    ensures h.weight == SecondsToTicks(1)
  {
    Host(60, None)
  }

  /** The values the speed spinner can hold: 1 to 100 seconds. */
  predicate SpinnerValue(seconds: int) {
    1 <= seconds <= 100
  }

  /** `updateSpeed`: a crossfade of `seconds` seconds lasts `seconds * 60`
      updates. */
  function SecondsToTicks(seconds: int): (ticks: int)
    ensures ticks % TicksPerSecond == 0 && ticks / TicksPerSecond == seconds
    ensures SpinnerValue(seconds) ==> 60 <= ticks <= 6000
  {
    seconds * TicksPerSecond
  }

  /** The spinner's change listener. */
  function UpdateSpeed(h: Host, seconds: int): (r: Host)
    requires Valid(h) && SpinnerValue(seconds)
    ensures Valid(r) && r.session == h.session
    ensures r.weight % TicksPerSecond == 0 && r.weight / TicksPerSecond == seconds
  {
    h.(weight := SecondsToTicks(seconds))
  }

  /** `selectFolder` once a folder is chosen, with its `initializeHost`: the
      host is (re)built from the accepted file names when at least one of
      them decodes. With no accepted name the status text changes and
      nothing else; when none decodes the constructor throws and the host
      is left as it was. */
  function SelectFolder(h: Host, names: seq<string>, decode: Canvas.Decoder<string>,
                        paint: Canvas.Painter, seconds: int): (r: Host)
    requires Valid(h) && SpinnerValue(seconds)
    ensures Valid(r)
    ensures FileFilter.ImageFiles(names) == [] ==> r == h
    ensures r != h ==> r.session.Some? && r.weight == SecondsToTicks(seconds)
    ensures r.session.Some? <==>
      h.session.Some? ||
      exists name :: name in names && FileFilter.IsImageName(name) && decode(name).Some?
    ensures Blender.New(FileFilter.ImageFiles(names), decode, paint).Failure? ==> r == h
    ensures Blender.New(FileFilter.ImageFiles(names), decode, paint).Success? ==>
      var b := Blender.New(FileFilter.ImageFiles(names), decode, paint).value;
      r.session == Some(Session(b, Screen.New(b.width, b.height)))
    ensures Blender.New(FileFilter.ImageFiles(names), decode, paint).Success? ==>
      r.weight == SecondsToTicks(seconds)
  {
    var files := FileFilter.ImageFiles(names);
    assert (exists i :: 0 <= i < |files| && decode(files[i]).Some?) <==>
      exists name :: name in names && FileFilter.IsImageName(name) && decode(name).Some?;
    if |files| == 0 then h
    else
      match Blender.New(files, decode, paint)
      case Failure(_) => h
      case Success(b) =>
        Host(SecondsToTicks(seconds), Some(Session(b, Screen.New(b.width, b.height))))
  }

  /** `update`: nothing before the host exists; afterwards exactly one
      `transition` at the current weight. */
  function Update(h: Host): (r: Host)
    requires Valid(h)
    ensures Valid(r) && r.weight == h.weight
    ensures h.session.None? ==> r == h
    ensures h.session.Some? ==>
      r.session == Some(h.session.value.(blender := Blender.Transition(h.session.value.blender, h.weight)))
  {
    match h.session
    case None => h
    case Some(s) => h.(session := Some(s.(blender := Blender.Transition(s.blender, h.weight))))
  }

  /** `n` calls of `update`. */
  function Updates(h: Host, n: nat): (r: Host)
    requires Valid(h)
    ensures Valid(r) && r.weight == h.weight
    ensures r.session.Some? <==> h.session.Some?
    decreases n
  {
    if n == 0 then h else Update(Updates(h, n - 1))
  }

  /** Updates before the host exists do nothing at all. */
  lemma {:induction false} UpdatesBeforeHost(h: Host, n: nat)
    requires Valid(h) && h.session.None?
    ensures Updates(h, n) == h
  {
    if n > 0 {
      UpdatesBeforeHost(h, n - 1);
    }
  }

  /** After the host exists, `n` updates are `n` transitions of its blender
      at the current weight, and the screen is untouched. */
  lemma {:induction false} UpdatesRun(h: Host, n: nat)
    requires Valid(h) && h.session.Some?
    ensures Updates(h, n).session.value ==
      h.session.value.(blender := Playback.Run(h.session.value.blender, h.weight, n))
  {
    if n > 0 {
      var b := h.session.value.blender;
      var p := Updates(h, n - 1);
      UpdatesRun(h, n - 1);
      assert Updates(h, n) == Update(p);
      Playback.RunStep(b, h.weight, n - 1);
      assert Blender.Transition(p.session.value.blender, h.weight) == Playback.Run(b, h.weight, n);
    }
  }

  /** `render`: nothing before the host exists; without a buffer strategy
      one is created and the frame is skipped; otherwise the screen is
      cleared, filled from the blender's frame, and its pixels copied out
      for presentation. */
  method Render(h: Host, hasStrategy: bool) returns (r: Host, shown: Option<seq<Word>>)
    requires Valid(h)
    ensures Valid(r) && r.weight == h.weight
    ensures h.session.None? || !hasStrategy ==> r == h && shown == None
    ensures h.session.Some? && hasStrategy ==>
      && r.session.Some?
      && r.session.value.blender == h.session.value.blender
      && r.session.value.screen.pixels == h.session.value.blender.frame
      && shown == Some(h.session.value.blender.frame)
  {
    if h.session.None? || !hasStrategy {
      return h, None;
    }
    var s := h.session.value;
    var cleared := Screen.Clear(s.screen);
    var screen := Screen.Render(cleared, s.blender.frame);
    r := h.(session := Some(s.(screen := screen)));
    shown := Some(screen.pixels[..|screen.pixels|]);
  }

  /** The inner loop of `run`: while a whole tick is owed, update and pay
      it off. From a non-negative debt it performs exactly its whole part
      of updates and leaves the fraction. */
  method CatchUp(h: Host, delta: real) returns (r: Host, rest: real, updates: nat)
    requires Valid(h)
    ensures Valid(r) && r == Updates(h, updates)
    ensures rest == delta - updates as real && rest < 1.0
    ensures delta < 1.0 ==> updates == 0
    ensures delta >= 0.0 ==> updates == delta.Floor && 0.0 <= rest
  {
    r, rest, updates := h, delta, 0;
    while rest >= 1.0
      invariant Valid(r) && r == Updates(h, updates)
      invariant rest == delta - updates as real
      invariant delta >= 0.0 ==> rest >= 0.0
      invariant delta < 1.0 ==> updates == 0
      decreases rest.Floor
    {
      r := Update(r);
      rest := rest - 1.0;
      updates := updates + 1;
    }
  }

  /** Logical ticks owed for a sequence of measured intervals. */
  function TicksOwed(elapsed: seq<nat>): (ticks: real)
    ensures ticks >= 0.0
  {
    if |elapsed| == 0 then 0.0
    else TicksOwed(elapsed[..|elapsed| - 1]) + elapsed[|elapsed| - 1] as real / NanosPerTick
  }

  /** One pass of the `run` loop once the interval has been added to the
      debt: catch up on every whole tick owed, then render. The blender
      advances by exactly the whole part of the debt. */
  method Pass(h: Host, delta: real, hasStrategy: bool)
    returns (r: Host, updates: nat, rest: real)
    requires Valid(h) && delta >= 0.0
    ensures Valid(r) && r.weight == h.weight
    ensures updates == delta.Floor && rest == delta - updates as real && 0.0 <= rest < 1.0
    ensures r.session.Some? <==> h.session.Some?
    ensures r.session.Some? ==>
      r.session.value.blender == Playback.Run(h.session.value.blender, h.weight, updates)
    ensures r.session.Some? && hasStrategy ==>
      r.session.value.screen.pixels == r.session.value.blender.frame
    ensures r.session.Some? && !hasStrategy ==>
      r.session.value.screen == h.session.value.screen
  {
    r, rest, updates := CatchUp(h, delta);
    if r.session.Some? {
      UpdatesRun(h, updates);
    }
    var shown;
    r, shown := Render(r, hasStrategy);
  }

  /** The `run` loop from its start (`delta = 0`) over a sequence of
      measured intervals between `System.nanoTime` samples: each pass adds
      the interval in ticks, catches up, and renders. However the time is
      sliced, the total number of updates is the whole part of the total
      time in ticks: the animation speed does not drift with the frame
      rate. */
  method Run(h: Host, elapsed: seq<nat>, hasStrategy: bool)
    returns (r: Host, updates: nat, delta: real)
    requires Valid(h)
    ensures Valid(r) && r.weight == h.weight
    ensures updates == TicksOwed(elapsed).Floor
    ensures delta == TicksOwed(elapsed) - updates as real && 0.0 <= delta < 1.0
    ensures r.session.Some? <==> h.session.Some?
    ensures r.session.Some? ==>
      r.session.value.blender == Playback.Run(h.session.value.blender, h.weight, updates)
  {
    r, updates, delta := h, 0, 0.0;
    var k := 0;
    while k < |elapsed|
      invariant 0 <= k <= |elapsed|
      invariant Valid(r) && r.weight == h.weight
      invariant (r.session.Some? <==> h.session.Some?)
      invariant r.session.Some? ==>
        r.session.value.blender == Playback.Run(h.session.value.blender, h.weight, updates)
      invariant delta == TicksOwed(elapsed[..k]) - updates as real
      invariant 0.0 <= delta < 1.0
    {
      assert elapsed[..k + 1][..k] == elapsed[..k];
      delta := delta + elapsed[k] as real / NanosPerTick;
      var more;
      r, more, delta := Pass(r, delta, hasStrategy);
      if r.session.Some? {
        Playback.RunAdd(h.session.value.blender, h.weight, updates, more);
      }
      updates := updates + more;
      k := k + 1;
    }
    assert elapsed[..k] == elapsed;
  }
}
