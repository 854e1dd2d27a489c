/** The adaptive quality controller: encoder quality falls with motion and with traffic above a bitrate ceiling, and
    follows its target by exponential smoothing. Arithmetic is over the reals. */
module Bitrate {
  import opened Options

  datatype Config = Config(qualityMin: int, qualityMax: int, motionCeiling: real, targetBitrate: real,
                           windowSec: real, smoothing: real)

  /** What the constructor accepts. */
  predicate Acceptable(cfg: Config)
  {
    0 <= cfg.qualityMin <= cfg.qualityMax <= 100 && 0.0 < cfg.smoothing <= 1.0
  }

  /** A configuration as kept: the motion ceiling is raised to at least a millionth. */
  ghost predicate Kept(cfg: Config)
  {
    Acceptable(cfg) && cfg.motionCeiling >= 0.000001
  }

  datatype Sample = Sample(t: real, bytes: nat)

  // ----- What is computed -----

  function MinReal(a: real, b: real): real
  {
    if b < a then b else a
  }

  function MaxReal(a: real, b: real): real
  {
    if a < b then b else a
  }

  function Fraction(cfg: Config, motion: real): real
    requires cfg.motionCeiling > 0.0
  {
    MaxReal(0.0, MinReal(1.0, motion / cfg.motionCeiling))
  }

  /** High quality for a still scene, down to the minimum at the motion ceiling. */
  function MotionQuality(cfg: Config, motion: real): real
    requires cfg.motionCeiling > 0.0
  {
    cfg.qualityMax as real - Fraction(cfg, motion) * (cfg.qualityMax - cfg.qualityMin) as real
  }

  /** Samples older than the window leave from the front. */
  function Trimmed(history: seq<Sample>, cutoff: real): seq<Sample>
  {
    if history != [] && history[0].t < cutoff then Trimmed(history[1..], cutoff) else history
  }

  function TotalBytes(history: seq<Sample>): nat
    decreases |history|
  {
    if history == [] then 0 else TotalBytes(history[..|history| - 1]) + history[|history| - 1].bytes
  }

  /** An empty window makes the rate infinite, as floating-point division does. */
  function Scale(cfg: Config, total: nat): real
  {
    if cfg.targetBitrate <= 0.0 || total == 0 then 1.0
    else if cfg.windowSec == 0.0 then 0.0
    else
      var bps := total as real * 8.0 / cfg.windowSec;
      if bps <= cfg.targetBitrate then 1.0
      else
        MaxReal(0.0, cfg.targetBitrate / bps)
  }

  function Target(cfg: Config, motion: real, scale: real): real
    requires cfg.motionCeiling > 0.0
  {
    Smoothed(cfg.qualityMin as real, MotionQuality(cfg, motion), scale)
  }

  /** From `q`, the fraction `smoothing` of the way to `target`. */
  function Smoothed(q: real, target: real, smoothing: real): real
  {
    q + (target - q) * smoothing
  }

  function Clamped(cfg: Config, q: real): real
  {
    MaxReal(cfg.qualityMin as real, MinReal(cfg.qualityMax as real, q))
  }

  datatype State = State(quality: real, history: seq<Sample>)

  datatype Event = Sent(bytes: nat, now: real) | Frame(motion: real, now: real)

  function After(cfg: Config, st: State, e: Event): State
    requires cfg.motionCeiling > 0.0
  {
    match e
    case Sent(bytes, now) => st.(history := st.history + [Sample(now, bytes)])
    case Frame(motion, now) =>
      var history := if cfg.targetBitrate <= 0.0 then st.history else Trimmed(st.history, now - cfg.windowSec);
      var target := Target(cfg, motion, Scale(cfg, TotalBytes(history)));
      State(Clamped(cfg, Smoothed(st.quality, target, cfg.smoothing)), history)
  }

  // ----- The controller -----

  class Controller {
    const cfg: Config
    var quality: real
    var history: seq<Sample>

    ghost function View(): State
      reads this
    {
      State(quality, history)
    }

    ghost predicate Valid()
      reads this
    {
      Kept(cfg) && InRange(cfg, quality)
    }

    constructor (cfg: Config)
      requires Acceptable(cfg)
      ensures Valid() && View() == State(cfg.qualityMax as real, [])
      ensures this.cfg == cfg.(motionCeiling := MaxReal(0.000001, cfg.motionCeiling))
    {
      this.cfg := cfg.(motionCeiling := MaxReal(0.000001, cfg.motionCeiling));
      quality := cfg.qualityMax as real;
      history := [];
    }

    method RecordSent(bytes: nat, now: real)
      requires Valid()
      modifies this
      ensures Valid() && View() == After(cfg, old(View()), Sent(bytes, now))
    {
      history := history + [Sample(now, bytes)];
    }

    method BitrateScale(now: real) returns (scale: real)
      requires Valid()
      modifies this`history
      ensures history == if cfg.targetBitrate <= 0.0 then old(history) else Trimmed(old(history), now - cfg.windowSec)
      ensures scale == Scale(cfg, TotalBytes(history))
    {
      if cfg.targetBitrate <= 0.0 {
        return 1.0;
      }
      var cutoff := now - cfg.windowSec;
      while history != [] && history[0].t < cutoff
        invariant Trimmed(history, cutoff) == Trimmed(old(history), cutoff)
        decreases |history|
      {
        history := history[1..];
      }
      var total: nat := 0;
      for i := 0 to |history|
        invariant total == TotalBytes(history[..i])
      {
        assert history[..i + 1][..i] == history[..i];
        total := total + history[i].bytes;
      }
      assert history[..|history|] == history;
      if total == 0 {
        return 1.0;
      }
      if cfg.windowSec == 0.0 {
        return 0.0;
      }
      var bps := total as real * 8.0 / cfg.windowSec;
      if bps <= cfg.targetBitrate {
        return 1.0;
      }
      return MaxReal(0.0, cfg.targetBitrate / bps);
    }

    /** The quality for the next frame: within range, and nearest to the smoothed value. */
    method NextQuality(motion: real, now: real) returns (q: int)
      requires Valid()
      modifies this
      ensures Valid() && View() == After(cfg, old(View()), Frame(motion, now))
      ensures cfg.qualityMin <= q <= cfg.qualityMax
      ensures quality - 0.5 < q as real <= quality + 0.5
    {
      hide Scale, Trimmed, MotionQuality, TotalBytes;
      var target := MotionQuality(cfg, motion);
      var scale := BitrateScale(now);
      target := Smoothed(cfg.qualityMin as real, target, scale);
      ClampNeverActs(cfg, quality, motion, TotalBytes(history));
      quality := Smoothed(quality, target, cfg.smoothing);
      hide Smoothed;
      quality := MaxReal(cfg.qualityMin as real, MinReal(cfg.qualityMax as real, quality));
      return (quality + 0.5).Floor;
    }
  }

  /** The constructor refuses a bad configuration by throwing. */
  method Create(cfg: Config) returns (c: Option<Controller>)
    ensures c.Some? <==> Acceptable(cfg)
    ensures c.Some? ==> fresh(c.value) && c.value.Valid() && c.value.View() == State(cfg.qualityMax as real, [])
  {
    if !Acceptable(cfg) {
      return None;
    }
    var made := new Controller(cfg);
    return Some(made);
  }

  // ----- The clamp never acts -----

  ghost predicate InRange(cfg: Config, q: real)
  {
    cfg.qualityMin as real <= q <= cfg.qualityMax as real
  }

  function Times(x: real, y: real): real
  {
    x * y
  }

  lemma Scaled(a: real, b: real, s: real)
    requires a <= b && 0.0 <= s
    ensures Times(a, s) <= Times(b, s)
  {}

  /** A smoothing step is a convex combination. */
  lemma Blend(a: real, b: real, s: real)
    ensures Smoothed(a, b, s) == Times(a, 1.0 - s) + Times(b, s)
  {}

  lemma SmoothedOrdered(a: real, b: real, c: real, d: real, s: real)
    requires a <= c && b <= d && 0.0 <= s <= 1.0
    ensures Smoothed(a, b, s) <= Smoothed(c, d, s)
  {
    hide Times, Smoothed;
    Blend(a, b, s);
    Blend(c, d, s);
    Scaled(a, c, 1.0 - s);
    Scaled(b, d, s);
  }

  lemma SmoothedSame(a: real, s: real)
    ensures Smoothed(a, a, s) == a
  {}

  lemma SmoothedInRange(lo: real, hi: real, a: real, b: real, s: real)
    requires lo <= a <= hi && lo <= b <= hi && 0.0 <= s <= 1.0
    ensures lo <= Smoothed(a, b, s) <= hi
  {
    hide Smoothed;
    SmoothedOrdered(lo, lo, a, b, s);
    SmoothedOrdered(a, b, hi, hi, s);
    SmoothedSame(lo, s);
    SmoothedSame(hi, s);
  }

  lemma ScaleRange(cfg: Config, total: nat)
    ensures 0.0 <= Scale(cfg, total) <= 1.0
  {
    if cfg.targetBitrate > 0.0 && cfg.windowSec != 0.0 {
      var bps := total as real * 8.0 / cfg.windowSec;
      if bps > cfg.targetBitrate {
        RatioBelowOne(cfg.targetBitrate, bps);
      }
    }
  }

  lemma RatioBelowOne(a: real, b: real)
    requires 0.0 < a < b
    ensures 0.0 <= a / b <= 1.0
  {}

  lemma MotionIsSmoothed(cfg: Config, motion: real)
    requires Kept(cfg)
    ensures MotionQuality(cfg, motion) ==
            Smoothed(cfg.qualityMax as real, cfg.qualityMin as real, Fraction(cfg, motion))
  {}

  lemma MotionQualityRange(cfg: Config, motion: real)
    requires Kept(cfg)
    ensures InRange(cfg, MotionQuality(cfg, motion))
  {
    var lo, hi := cfg.qualityMin as real, cfg.qualityMax as real;
    MotionIsSmoothed(cfg, motion);
    hide MotionQuality, Smoothed;
    SmoothedInRange(lo, hi, hi, lo, Fraction(cfg, motion));
  }

  lemma TargetRange(cfg: Config, motion: real, total: nat)
    requires Kept(cfg)
    ensures InRange(cfg, Target(cfg, motion, Scale(cfg, total)))
  {
    var lo, hi := cfg.qualityMin as real, cfg.qualityMax as real;
    MotionQualityRange(cfg, motion);
    ScaleRange(cfg, total);
    hide MotionQuality, Smoothed, Scale;
    SmoothedInRange(lo, hi, lo, MotionQuality(cfg, motion), Scale(cfg, total));
  }

  /** From a quality in range, the smoothed value is in range before it is clamped. */
  lemma ClampNeverActs(cfg: Config, q: real, motion: real, total: nat)
    requires Kept(cfg) && InRange(cfg, q)
    ensures var next := Smoothed(q, Target(cfg, motion, Scale(cfg, total)), cfg.smoothing);
      InRange(cfg, next) && Clamped(cfg, next) == next
  {
    hide Target, Scale, Smoothed;
    TargetRange(cfg, motion, total);
    var lo, hi := cfg.qualityMin as real, cfg.qualityMax as real;
    SmoothedInRange(lo, hi, q, Target(cfg, motion, Scale(cfg, total)), cfg.smoothing);
  }

  function Run(cfg: Config, st: State, events: seq<Event>): State
    requires cfg.motionCeiling > 0.0
    decreases |events|
  {
    if events == [] then st else After(cfg, Run(cfg, st, events[..|events| - 1]), events[|events| - 1])
  }

  /** In every run quality stays in range. */
  lemma {:induction false} AlwaysInRange(cfg: Config, st: State, events: seq<Event>)
    requires Kept(cfg) && InRange(cfg, st.quality)
    ensures InRange(cfg, Run(cfg, st, events).quality)
    decreases |events|
  {
    hide Target, Scale, Smoothed, Clamped, Trimmed;
    if events != [] {
      var before, e := Run(cfg, st, events[..|events| - 1]), events[|events| - 1];
      AlwaysInRange(cfg, st, events[..|events| - 1]);
      if e.Frame? {
        ClampNeverActs(cfg, before.quality, e.motion, TotalBytes(After(cfg, before, e).history));
      }
    }
  }

  /** Above the ceiling, the scale brings the measured rate down to it exactly. */
  lemma ScaleMeetsCeiling(cfg: Config, total: nat)
    requires cfg.windowSec > 0.0 && cfg.targetBitrate > 0.0
    ensures var bps := total as real * 8.0 / cfg.windowSec;
      Scale(cfg, total) * bps == if bps > cfg.targetBitrate then cfg.targetBitrate else bps
  {}

  /** Without motion the maximum, from the ceiling on the minimum, and in between in proportion. */
  lemma MotionExactly(cfg: Config, motion: real)
    requires Kept(cfg)
    ensures motion <= 0.0 ==> MotionQuality(cfg, motion) == cfg.qualityMax as real
    ensures motion >= cfg.motionCeiling ==> MotionQuality(cfg, motion) == cfg.qualityMin as real
    ensures 0.0 <= motion <= cfg.motionCeiling ==>
              (cfg.qualityMax as real - MotionQuality(cfg, motion)) * cfg.motionCeiling ==
              motion * (cfg.qualityMax - cfg.qualityMin) as real
  {
    var range := (cfg.qualityMax - cfg.qualityMin) as real;
    FractionExactly(cfg, motion);
    hide Fraction;
    if 0.0 <= motion <= cfg.motionCeiling {
      Reorders(Fraction(cfg, motion), range, cfg.motionCeiling);
    }
  }

  lemma FractionExactly(cfg: Config, motion: real)
    requires Kept(cfg)
    ensures motion <= 0.0 ==> Fraction(cfg, motion) == 0.0
    ensures motion >= cfg.motionCeiling ==> Fraction(cfg, motion) == 1.0
    ensures 0.0 <= motion <= cfg.motionCeiling ==> Fraction(cfg, motion) * cfg.motionCeiling == motion
  {
    var x := motion / cfg.motionCeiling;
    assert x * cfg.motionCeiling == motion;
    if motion <= 0.0 {
      Divided(motion, 0.0, cfg.motionCeiling);
    } else {
      Divided(0.0, motion, cfg.motionCeiling);
    }
    if motion >= cfg.motionCeiling {
      Divided(cfg.motionCeiling, motion, cfg.motionCeiling);
    } else {
      Divided(motion, cfg.motionCeiling, cfg.motionCeiling);
    }
  }

  lemma Reorders(f: real, range: real, ceiling: real)
    ensures (f * range) * ceiling == (f * ceiling) * range
  {}

  /** What leaves the window is a front of the record, all of it older than the window; what stays begins inside it,
      and with samples recorded in order of time it is exactly the samples inside. */
  lemma {:induction false} TrimmedExactly(history: seq<Sample>, cutoff: real)
    ensures var kept := Trimmed(history, cutoff);
      && |kept| <= |history| && kept == history[|history| - |kept|..]
      && (forall i :: 0 <= i < |history| - |kept| ==> history[i].t < cutoff)
      && (kept != [] ==> kept[0].t >= cutoff)
      && ((forall i, j :: 0 <= i < j < |history| ==> history[i].t <= history[j].t) ==>
            forall i :: 0 <= i < |kept| ==> kept[i].t >= cutoff)
    decreases |history|
  {
    if history != [] && history[0].t < cutoff {
      TrimmedExactly(history[1..], cutoff);
      var kept := Trimmed(history, cutoff);
      assert history[1..][|history| - 1 - |kept|..] == history[|history| - |kept|..];
      assert forall i :: 0 < i < |history| - |kept| ==> history[i] == history[1..][i - 1];
    }
  }

  lemma {:induction false} TotalAppend(a: seq<Sample>, b: seq<Sample>)
    ensures TotalBytes(a + b) == TotalBytes(a) + TotalBytes(b)
    decreases |b|
  {
    if b == [] {
      assert a + b == a;
    } else {
      assert (a + b)[..|a + b| - 1] == a + b[..|b| - 1];
      TotalAppend(a, b[..|b| - 1]);
    }
  }

  lemma TotalOne(x: Sample)
    ensures TotalBytes([x]) == x.bytes
  {
    assert [x][..0] == [];
  }

  /** What a frame does: quality moves the fraction `smoothing` of the way to a target that lies above the minimum by
      what the motion quality does, scaled down by the traffic in the window. */
  lemma FrameExactly(cfg: Config, st: State, motion: real, now: real)
    requires Kept(cfg) && InRange(cfg, st.quality)
    ensures var next, lo := After(cfg, st, Frame(motion, now)), cfg.qualityMin as real;
      var scale := Scale(cfg, TotalBytes(next.history));
      && next.history == (if cfg.targetBitrate <= 0.0 then st.history else Trimmed(st.history, now - cfg.windowSec))
      && next.quality - st.quality == (lo + (MotionQuality(cfg, motion) - lo) * scale - st.quality) * cfg.smoothing
  {
    hide Scale, MotionQuality, Trimmed, TotalBytes, Clamped;
    ClampNeverActs(cfg, st.quality, motion, TotalBytes(After(cfg, st, Frame(motion, now)).history));
  }

  // ----- Convergence -----

  function Power(x: real, n: nat): real
  {
    if n == 0 then 1.0 else x * Power(x, n - 1)
  }

  /** Smoothing `n` times towards one target. */
  function SmoothedTimes(q: real, target: real, s: real, n: nat): real
  {
    if n == 0 then q else Smoothed(SmoothedTimes(q, target, s, n - 1), target, s)
  }

  lemma Shrinks(q: real, target: real, s: real)
    ensures Smoothed(q, target, s) - target == (q - target) * (1.0 - s)
  {}

  lemma Associates(a: real, b: real, c: real)
    ensures (a * b) * c == a * (c * b)
  {}

  /** Under a constant target the distance to it shrinks geometrically. */
  lemma {:induction false} ClosedForm(q: real, target: real, s: real, n: nat)
    ensures SmoothedTimes(q, target, s, n) - target == (q - target) * Power(1.0 - s, n)
    decreases n
  {
    hide Smoothed;
    if n > 0 {
      ClosedForm(q, target, s, n - 1);
      var before, p := SmoothedTimes(q, target, s, n - 1), Power(1.0 - s, n - 1);
      Shrinks(before, target, s);
      Associates(q - target, p, 1.0 - s);
    }
  }

  /** Frames that all aim at one target. */
  ghost predicate Aims(cfg: Config, st: State, events: seq<Event>, target: real)
    requires cfg.motionCeiling > 0.0
    decreases |events|
  {
    events == [] || (
      var front, e := events[..|events| - 1], events[|events| - 1];
      var before := Run(cfg, st, front);
      && Aims(cfg, st, front, target)
      && (e.Frame? ==> Target(cfg, e.motion, Scale(cfg, TotalBytes(After(cfg, before, e).history))) == target))
  }

  function Frames(events: seq<Event>): nat
    decreases |events|
  {
    if events == [] then 0 else Frames(events[..|events| - 1]) + (if events[|events| - 1].Frame? then 1 else 0)
  }

  /** The closed form holds of the controller itself, clamp and all, over any run whose frames share a target. */
  lemma {:induction false} Converges(cfg: Config, st: State, events: seq<Event>, target: real)
    requires Kept(cfg) && InRange(cfg, st.quality) && Aims(cfg, st, events, target)
    ensures Run(cfg, st, events).quality - target == (st.quality - target) * Power(1.0 - cfg.smoothing, Frames(events))
    decreases |events|
  {
    ReachesSmoothed(cfg, st, events, target);
    ClosedForm(st.quality, target, cfg.smoothing, Frames(events));
  }

  lemma {:induction false} ReachesSmoothed(cfg: Config, st: State, events: seq<Event>, target: real)
    requires Kept(cfg) && InRange(cfg, st.quality) && Aims(cfg, st, events, target)
    ensures Run(cfg, st, events).quality == SmoothedTimes(st.quality, target, cfg.smoothing, Frames(events))
    decreases |events|
  {
    hide Target, Scale, Clamped, Trimmed, Smoothed;
    if events != [] {
      var front, e := events[..|events| - 1], events[|events| - 1];
      ReachesSmoothed(cfg, st, front, target);
      AlwaysInRange(cfg, st, front);
      if e.Frame? {
        var before := Run(cfg, st, front);
        ClampNeverActs(cfg, before.quality, e.motion, TotalBytes(After(cfg, before, e).history));
      }
    }
  }

  // ----- Monotonicity -----

  /** The same calls at the same times, with at least as much motion and at least as many bytes. */
  ghost predicate Heavier(a: seq<Event>, b: seq<Event>)
  {
    && |a| == |b|
    && forall i :: 0 <= i < |a| ==>
         match a[i]
         case Sent(bytes, now) => b[i].Sent? && b[i].now == now && bytes <= b[i].bytes
         case Frame(motion, now) => b[i].Frame? && b[i].now == now && motion <= b[i].motion
  }

  ghost predicate HeavierHistory(a: seq<Sample>, b: seq<Sample>)
  {
    |a| == |b| && forall i :: 0 <= i < |a| ==> a[i].t == b[i].t && a[i].bytes <= b[i].bytes
  }

  lemma {:induction false} TrimmedHeavier(a: seq<Sample>, b: seq<Sample>, cutoff: real)
    requires HeavierHistory(a, b)
    ensures HeavierHistory(Trimmed(a, cutoff), Trimmed(b, cutoff))
    decreases |a|
  {
    if a != [] && a[0].t < cutoff {
      TrimmedHeavier(a[1..], b[1..], cutoff);
    }
  }

  lemma {:induction false} TotalHeavier(a: seq<Sample>, b: seq<Sample>)
    requires HeavierHistory(a, b)
    ensures TotalBytes(a) <= TotalBytes(b)
    decreases |a|
  {
    if a != [] {
      TotalHeavier(a[..|a| - 1], b[..|b| - 1]);
    }
  }

  lemma Divided(a: real, b: real, c: real)
    requires c > 0.0 && a <= b
    ensures a / c <= b / c
  {}

  lemma Quotients(t: real, a: real, b: real)
    requires 0.0 < t && 0.0 < a <= b
    ensures t / b <= t / a
  {}

  lemma ScaleHeavier(cfg: Config, a: nat, b: nat)
    requires a <= b
    ensures Scale(cfg, b) <= Scale(cfg, a)
  {
    ScaleRange(cfg, b);
    if cfg.windowSec > 0.0 {
      ScaleHeavierAhead(cfg, a, b);
    } else if cfg.windowSec < 0.0 {
      ScaleBackwards(cfg, a);
    }
  }

  lemma ScaleHeavierAhead(cfg: Config, a: nat, b: nat)
    requires a <= b && cfg.windowSec > 0.0
    ensures Scale(cfg, b) <= Scale(cfg, a)
  {
    ScaleRange(cfg, b);
    var ra, rb := a as real * 8.0 / cfg.windowSec, b as real * 8.0 / cfg.windowSec;
    Divided(a as real * 8.0, b as real * 8.0, cfg.windowSec);
    if cfg.targetBitrate > 0.0 && ra > cfg.targetBitrate {
      Quotients(cfg.targetBitrate, ra, rb);
    }
  }

  /** A negative window makes every rate negative, and so no ceiling is ever met. */
  lemma ScaleBackwards(cfg: Config, total: nat)
    requires cfg.windowSec < 0.0
    ensures Scale(cfg, total) == 1.0
  {
    NegativeRate(total as real * 8.0, cfg.windowSec);
  }

  lemma NegativeRate(x: real, w: real)
    requires 0.0 <= x && w < 0.0
    ensures x / w <= 0.0
  {
    assert x == (x / w) * w;
  }

  lemma MotionHeavier(cfg: Config, a: real, b: real)
    requires Kept(cfg) && a <= b
    ensures MotionQuality(cfg, b) <= MotionQuality(cfg, a)
  {
    Divided(a, b, cfg.motionCeiling);
    assert Fraction(cfg, a) <= Fraction(cfg, b);
    Scaled(Fraction(cfg, a), Fraction(cfg, b), (cfg.qualityMax - cfg.qualityMin) as real);
  }

  lemma TargetHeavier(cfg: Config, a: real, b: real, total: nat, more: nat)
    requires Kept(cfg) && a <= b && total <= more
    ensures Target(cfg, b, Scale(cfg, more)) <= Target(cfg, a, Scale(cfg, total))
  {
    hide Scale, MotionQuality, Smoothed;
    var lo, qa, qb := cfg.qualityMin as real, MotionQuality(cfg, a), MotionQuality(cfg, b);
    MotionHeavier(cfg, a, b);
    MotionQualityRange(cfg, b);
    ScaleHeavier(cfg, total, more);
    ScaleRange(cfg, more);
    ScaleRange(cfg, total);
    SmoothedOrdered(lo, qb, lo, qa, Scale(cfg, total));
    SmoothedFurther(lo, qb, Scale(cfg, more), Scale(cfg, total));
  }

  lemma SmoothedFurther(a: real, b: real, s: real, t: real)
    requires a <= b && s <= t
    ensures Smoothed(a, b, s) <= Smoothed(a, b, t)
  {}

  /** Of two runs with the same calls at the same times, the one with more motion and more bytes never has the higher
      quality. */
  lemma {:induction false} HeavierIsNotBetter(cfg: Config, st: State, a: seq<Event>, b: seq<Event>)
    requires Kept(cfg) && Heavier(a, b)
    ensures Run(cfg, st, b).quality <= Run(cfg, st, a).quality
    ensures HeavierHistory(Run(cfg, st, a).history, Run(cfg, st, b).history)
    decreases |a|
  {
    hide Target, Scale, Smoothed, Trimmed;
    if a != [] {
      var fa, fb, ea, eb := a[..|a| - 1], b[..|b| - 1], a[|a| - 1], b[|b| - 1];
      HeavierIsNotBetter(cfg, st, fa, fb);
      var sa, sb := Run(cfg, st, fa), Run(cfg, st, fb);
      if ea.Frame? {
        TrimmedHeavier(sa.history, sb.history, ea.now - cfg.windowSec);
        var ha, hb := After(cfg, sa, ea).history, After(cfg, sb, eb).history;
        TotalHeavier(ha, hb);
        TargetHeavier(cfg, ea.motion, eb.motion, TotalBytes(ha), TotalBytes(hb));
        SmoothedOrdered(sb.quality, Target(cfg, eb.motion, Scale(cfg, TotalBytes(hb))),
                        sa.quality, Target(cfg, ea.motion, Scale(cfg, TotalBytes(ha))), cfg.smoothing);
      }
    }
  }
}
