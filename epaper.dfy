/** The refresh controller for the 7.5 inch e-paper panel (800 x 480, mounted
    landscape): full or partial refresh, the rotation of the portrait picture,
    and the driver command sequences of display_image and clear_display. */
module Epaper {
  import opened Wrappers
  import opened Images

  const DisplayWidth: nat := 800
  const DisplayHeight: nat := 480

  /** The minute field of the wall clock. */
  type Minute = m: int | 0 <= m < 60

  /** should_full_refresh: a full refresh on every fifth minute of the hour. */
  function ShouldFullRefresh(minute: Minute): (full: bool)
    ensures full <==> minute in {0, 5, 10, 15, 20, 25, 30, 35, 40, 45, 50, 55}
  {
    minute % 5 == 0
  }

  /** The minute k minutes after m, on the wall clock. */
  function Later(m: Minute, k: nat): Minute {
    (m + k) % 60
  }

  /** Five divides the hour, so the clock's wrap-around keeps the residue mod 5. */
  lemma WrapKeepsFifths(n: nat)
    ensures (n % 60) % 5 == n % 5
  {
    var q := n / 60;
    assert n == 5 * (12 * q) + n % 60;
  }

  /** Less than five past a multiple of five is not a multiple of five. */
  lemma NextMultipleOfFive(p: nat, d: nat)
    requires p % 5 == 0 && 0 < d < 5
    ensures (p + d) % 5 == d
  {
    assert p + d == 5 * (p / 5) + d;
  }

  /** A later minute is a full-refresh minute exactly when the elapsed count
      brings m to a multiple of five. */
  lemma LaterFull(m: Minute, k: nat)
    ensures ShouldFullRefresh(Later(m, k)) <==> (m + k) % 5 == 0
  {
    WrapKeepsFifths(m + k);
  }

  /** Among any five consecutive minutes, wrapping at the hour, exactly one
      gets a full refresh, so ghosting never builds up for more than four
      partial refreshes in a row when the controller runs once a minute. */
  lemma FullRefreshEveryFiveMinutes(m: Minute)
    ensures exists k :: 0 <= k < 5 && ShouldFullRefresh(Later(m, k))
    ensures forall j, k :: 0 <= j < k < 5 && ShouldFullRefresh(Later(m, j)) ==> !ShouldFullRefresh(Later(m, k))
  {
    var r := m % 5;
    var first := if r == 0 then 0 else 5 - r;
    assert m + first == 5 * (m / 5 + (if r == 0 then 0 else 1));
    LaterFull(m, first);
    forall j, k | 0 <= j < k < 5 && ShouldFullRefresh(Later(m, j))
      ensures !ShouldFullRefresh(Later(m, k))
    {
      LaterFull(m, j);
      LaterFull(m, k);
      NextMultipleOfFive(m + j, k - j);
    }
  }

  /** Image.rotate(90, expand=True): a quarter turn counter-clockwise with the
      canvas enlarged to fit, so width and height swap and no pixel is lost.
      Column x of row y of the result is column width-1-y of row x of the input. */
  function Rotate90(img: Image): (r: Image)
    ensures r.width == img.height && r.height == img.width
    ensures forall x: nat, y: nat :: x < r.width && y < r.height ==>
              r.rows[y][x] == img.rows[x][img.width - 1 - y]
  {
    FromPixels(img.height, img.width,
               (x: nat, y: nat) => if x < img.height && y < img.width then img.rows[x][img.width - 1 - y] else 0)
  }

  /** Two quarter turns are a half turn. */
  lemma Rotate180(img: Image)
    ensures var r := Rotate90(Rotate90(img));
            && r.width == img.width && r.height == img.height
            && forall x: nat, y: nat :: x < img.width && y < img.height ==>
                 r.rows[y][x] == img.rows[img.height - 1 - y][img.width - 1 - x]
  {
    var once := Rotate90(img);
    var r := Rotate90(once);
    forall x: nat, y: nat | x < img.width && y < img.height
      ensures r.rows[y][x] == img.rows[img.height - 1 - y][img.width - 1 - x]
    {
      assert r.rows[y][x] == once.rows[x][once.width - 1 - y];
    }
  }

  /** Two half turns cancel. */
  lemma HalfTurnsCancel(img: Image, half: Image, r: Image)
    requires half.width == img.width && half.height == img.height
    requires r.width == img.width && r.height == img.height
    requires forall x: nat, y: nat :: x < img.width && y < img.height ==>
               half.rows[y][x] == img.rows[img.height - 1 - y][img.width - 1 - x]
    requires forall x: nat, y: nat :: x < img.width && y < img.height ==>
               r.rows[y][x] == half.rows[img.height - 1 - y][img.width - 1 - x]
    ensures r == img
  {
    forall x: nat, y: nat | x < img.width && y < img.height
      ensures r.rows[y][x] == img.rows[y][x]
    {
      var x', y' := img.width - 1 - x, img.height - 1 - y;
      assert half.rows[y'][x'] == img.rows[img.height - 1 - y'][img.width - 1 - x'];
    }
    SamePixels(r, img);
  }

  /** Four quarter turns give the picture back: the rotation loses nothing. */
  lemma RotateFourTimes(img: Image)
    ensures Rotate90(Rotate90(Rotate90(Rotate90(img)))) == img
  {
    var half := Rotate90(Rotate90(img));
    Rotate180(img);
    Rotate180(half);
    HalfTurnsCancel(img, half, Rotate90(Rotate90(half)));
  }

  /** A stored 480 x 800 portrait picture becomes a frame of the panel's size. */
  lemma PortraitFitsPanel(img: Image)
    requires img.width == DisplayHeight && img.height == DisplayWidth
    ensures Rotate90(img).width == DisplayWidth && Rotate90(img).height == DisplayHeight
  {
  }

  /** The commands the panel driver accepts; Show carries the frame that
      display(getbuffer(frame)) transmits. */
  datatype Command = Init | Clear | Show(frame: Image) | Sleep

  /** The kind of a command, which is what decides whether the driver raises. */
  datatype Kind = InitKind | ClearKind | ShowKind | SleepKind

  function KindOf(c: Command): Kind {
    match c
    case Init => InitKind
    case Clear => ClearKind
    case Show(_) => ShowKind
    case Sleep => SleepKind
  }

  /** What the driver completes of a command sequence that stops at the first
      command that raises: a prefix of the plan, all of whose commands succeed,
      followed (if it is shorter) by one that raises. */
  function Completed(plan: seq<Command>, faults: set<Kind>): (done: seq<Command>)
    ensures |done| <= |plan| && done == plan[..|done|]
    ensures forall i :: 0 <= i < |done| ==> KindOf(done[i]) !in faults
    ensures |done| < |plan| ==> KindOf(plan[|done|]) in faults
  {
    if plan == [] || KindOf(plan[0]) in faults then []
    else [plan[0]] + Completed(plan[1..], faults)
  }

  /** The plan runs to the end exactly when none of its commands raises. */
  lemma {:induction false} CompletedIffNoFault(plan: seq<Command>, faults: set<Kind>)
    ensures Completed(plan, faults) == plan <==> forall i :: 0 <= i < |plan| ==> KindOf(plan[i]) !in faults
    decreases |plan|
  {
    if plan != [] {
      CompletedIffNoFault(plan[1..], faults);
    }
  }

  /** The driver object epd7in5_V2.EPD: `log` holds the commands the panel has
      completed, and the commands whose kinds are in `faults` raise. */
  class Epd {
    var log: seq<Command>
    const faults: set<Kind>

    constructor (faults: set<Kind>)
      ensures log == [] && this.faults == faults
    {
      log := [];
      this.faults := faults;
    }

    /** Issue one command; it joins the log unless it raises. */
    method Send(c: Command) returns (raised: bool)
      modifies this
      ensures raised <==> KindOf(c) in faults
      ensures log == if raised then old(log) else old(log) + [c]
    {
      raised := KindOf(c) in faults;
      if !raised {
        log := log + [c];
      }
    }
  }

  /** What display_image asks of the driver once it holds it: init, Clear on a
      full refresh, and, when the file opens as a picture, the rotated frame and
      sleep. */
  function DisplayPlan(file: FileContent, full: bool): (plan: seq<Command>)
    ensures plan != [] && plan[0] == Init
    ensures Clear in plan <==> full
    ensures Sleep in plan <==> file.ImageFile?
    ensures file.ImageFile? ==>
              |plan| >= 3 && plan[|plan| - 2] == Show(Rotate90(file.image)) && plan[|plan| - 1] == Sleep
  {
    [Init] + (if full then [Clear] else []) +
    (if file.ImageFile? then [Show(Rotate90(file.image)), Sleep] else [])
  }

  /** A step of a plan run on the driver: either the next command completes,
      or it raises and the run stops with the log as it was. */
  lemma CompletedStep(plan: seq<Command>, faults: set<Kind>, log: seq<Command>)
    requires |log| < |plan| && log == plan[..|log|]
    requires forall i :: 0 <= i < |log| ==> KindOf(log[i]) !in faults
    ensures KindOf(plan[|log|]) in faults ==> Completed(plan, faults) == log
    ensures KindOf(plan[|log|]) !in faults ==>
              log + [plan[|log|]] == plan[..|log| + 1] &&
              forall i :: 0 <= i < |log| + 1 ==> KindOf((log + [plan[|log|]])[i]) !in faults
  {
    if KindOf(plan[|log|]) in faults {
      CompletedPrefix(plan, faults, |log|);
    } else {
      assert plan[..|log| + 1] == plan[..|log|] + [plan[|log|]];
    }
  }

  /** A run that gets through the first k commands and then meets a fault stops there. */
  lemma {:induction false} CompletedPrefix(plan: seq<Command>, faults: set<Kind>, k: nat)
    requires k < |plan| && KindOf(plan[k]) in faults
    requires forall i :: 0 <= i < k ==> KindOf(plan[i]) !in faults
    ensures Completed(plan, faults) == plan[..k]
    decreases k
  {
    if k > 0 {
      CompletedPrefix(plan[1..], faults, k - 1);
      assert plan[..k] == [plan[0]] + plan[1..][..k - 1];
    }
  }

  /** A run in which every command completes is the whole plan. */
  lemma {:induction false} CompletedAll(plan: seq<Command>, faults: set<Kind>)
    requires forall i :: 0 <= i < |plan| ==> KindOf(plan[i]) !in faults
    ensures Completed(plan, faults) == plan
    decreases |plan|
  {
    if plan != [] {
      CompletedAll(plan[1..], faults);
    }
  }

  /** display_image.  `image` is what the path holds (None: it does not exist),
      `minute` the wall-clock minute, `onPi` the device probe, `driverInstalled`
      whether the driver library imports, and `faults` the driver commands that
      raise.  `trace` is the commands the panel completed. */
  method DisplayImage(image: Option<FileContent>, force: bool, minute: Minute, onPi: bool,
                      driverInstalled: bool, faults: set<Kind>) returns (ok: bool, trace: seq<Command>)
    ensures image.None? ==> !ok && trace == []
    ensures image.Some? && !onPi ==> ok && trace == []
    ensures image.Some? && onPi && !driverInstalled ==> !ok && trace == []
    ensures image.Some? && onPi && driverInstalled ==>
              var plan := DisplayPlan(image.value, force || minute % 5 == 0);
              && trace == Completed(plan, faults)
              && (ok <==> image.value.ImageFile? && trace == plan)
  {
    if image.None? {
      return false, [];
    }
    var full := force || ShouldFullRefresh(minute);
    if !onPi {
      return true, [];
    }
    if !driverInstalled {
      return false, [];
    }
    ghost var plan := DisplayPlan(image.value, full);
    var epd := new Epd(faults);
    CompletedStep(plan, faults, epd.log);
    var raised := epd.Send(Init);
    if raised {
      return false, epd.log;
    }
    if full {
      CompletedStep(plan, faults, epd.log);
      raised := epd.Send(Clear);
      if raised {
        return false, epd.log;
      }
    }
    if image.value.OtherFile? {
      assert epd.log == plan;
      CompletedAll(plan, faults);
      return false, epd.log;
    }
    var rotated := Rotate90(image.value.image);
    CompletedStep(plan, faults, epd.log);
    raised := epd.Send(Show(rotated));
    if raised {
      return false, epd.log;
    }
    CompletedStep(plan, faults, epd.log);
    raised := epd.Send(Sleep);
    if raised {
      return false, epd.log;
    }
    assert epd.log == plan;
    CompletedAll(plan, faults);
    return true, epd.log;
  }

  /** Sleep completes only at the end of a fault-free pass, which ends with the
      rotated frame and then Sleep.  After a fault the trace holds no Sleep; when
      only sleep raises, the frame has already been sent. */
  lemma DisplaySleepsOnlyOnSuccess(file: FileContent, full: bool, faults: set<Kind>)
    ensures var plan := DisplayPlan(file, full);
            var trace := Completed(plan, faults);
            && (Sleep in trace <==> file.ImageFile? && trace == plan)
            && (file.ImageFile? && trace == plan ==>
                  trace[|trace| - 2] == Show(Rotate90(file.image)) && trace[|trace| - 1] == Sleep)
  {
    var plan := DisplayPlan(file, full);
    var trace := Completed(plan, faults);
    if Sleep in trace {
      var i :| 0 <= i < |trace| && trace[i] == Sleep;
      assert plan[i] == Sleep;
      assert file.ImageFile? && i == |plan| - 1;
    }
  }

  /** The commands clear_display sends once it holds the driver. */
  const ClearPlan: seq<Command> := [Init, Clear, Sleep]

  /** clear_display, with the same parameters as DisplayImage. */
  method ClearDisplay(onPi: bool, driverInstalled: bool, faults: set<Kind>) returns (ok: bool, trace: seq<Command>)
    ensures !onPi ==> ok && trace == []
    ensures onPi && !driverInstalled ==> !ok && trace == []
    ensures onPi && driverInstalled ==> trace == Completed(ClearPlan, faults) && (ok <==> trace == ClearPlan)
  {
    if !onPi {
      return true, [];
    }
    if !driverInstalled {
      return false, [];
    }
    var epd := new Epd(faults);
    CompletedStep(ClearPlan, faults, epd.log);
    var raised := epd.Send(Init);
    if raised {
      return false, epd.log;
    }
    CompletedStep(ClearPlan, faults, epd.log);
    raised := epd.Send(Clear);
    if raised {
      return false, epd.log;
    }
    CompletedStep(ClearPlan, faults, epd.log);
    raised := epd.Send(Sleep);
    if raised {
      return false, epd.log;
    }
    assert epd.log == ClearPlan;
    CompletedAll(ClearPlan, faults);
    return true, epd.log;
  }

  /** Sleep completes exactly on a fault-free clear, after init and Clear; after
      a fault the trace holds no Sleep. */
  lemma ClearSleepsOnlyOnSuccess(faults: set<Kind>)
    ensures var trace := Completed(ClearPlan, faults);
            (Sleep in trace <==> trace == ClearPlan) &&
            (trace == ClearPlan <==> InitKind !in faults && ClearKind !in faults && SleepKind !in faults)
  {
    var trace := Completed(ClearPlan, faults);
    CompletedIffNoFault(ClearPlan, faults);
    if Sleep in trace {
      var i :| 0 <= i < |trace| && trace[i] == Sleep;
      assert ClearPlan[i] == Sleep;
    }
    if InitKind !in faults && ClearKind !in faults && SleepKind !in faults {
      assert forall i :: 0 <= i < 3 ==> KindOf(ClearPlan[i]) !in faults;
    }
  }
}
