/**
 * The level's tick state machine. One game tick advances the day clock, then
 * the weather countdown, then drains the due block ticks, then steps the save
 * counter. The per-player, per-entity and per-block tick callbacks are assumed
 * not to touch the player and entity rosters; the rosters-unchanged promise of
 * `GameTick` rests on that assumption.
 */
module World {
  import opened Addressing
  import opened Players
  import opened TickQueue
  import opened CSharpInt
  import opened Seqs

  /** The clock value after which the next tick wraps to 0 and starts a new day. */
  const WrapTime := 24000

  /** The save-counter value at which chunks are saved and the counter restarts. */
  const SaveAt := 3000

  /** The level's authoritative state. */
  datatype Level = Level(
    time: int,
    day: int,
    raining: bool,
    timeToRain: int,
    blockTicks: Queue,
    players: seq<Player>,
    entities: seq<Entity>,
    saveTick: int)

  /**
   * The ranges the constructor establishes and `GameTick` preserves. The
   * public setters of the clock and the weather fields do not check them.
   */
  predicate Valid(l: Level)
  {
    && 0 <= l.time <= WrapTime
    && l.day >= 1
    && l.timeToRain >= 0
    && 0 <= l.saveTick <= SaveAt
  }

  /**
   * `Random.Next(lo, hi)`: a value in the half-open range [lo, hi). The
   * random source is the arbitrary input `draw`.
   */
  function RandomNext(draw: nat, lo: int, hi: int): (r: int)
    requires lo < hi
    ensures lo <= r < hi
  {
    lo + draw % (hi - lo)
  }

  /** Every value of the range is some draw's result, so `draw` constrains nothing else. */
  lemma RandomNextCovers(lo: int, hi: int, v: int)
    requires lo <= v < hi
    ensures RandomNext(v - lo, lo, hi) == v
  {
  }

  /** The constructor: time 1200 on day 1, dry, empty rosters and queue, rain due in [24000, 96000). */
  function Init(draw: nat): (l: Level)
    ensures Valid(l)
    ensures !l.raining && 24000 <= l.timeToRain < 96000
    ensures l.time == 1200 && l.day == 1 && l.saveTick == 0
    ensures l.players == [] && l.entities == [] && l.blockTicks == map[]
  {
    Level(1200, 1, false, RandomNext(draw, 24000, 96000), map[], [], [], 0)
  }

  /**
   * `DayTick`: the clock climbs while below 24000 and wraps to 0 on the tick
   * after it reached 24000, starting a new day. Every player gets the new
   * time and day.
   */
  function DayTick(l: Level): (r: (Level, seq<Delivery>))
    ensures r.0 == l.(time := r.0.time, day := r.0.day)
    ensures l.time < WrapTime ==> r.0.time == l.time + 1 && r.0.day == l.day
    ensures l.time >= WrapTime ==> r.0.time == 0 && r.0.day == l.day + 1
    ensures 0 <= l.time <= WrapTime ==> 0 <= r.0.time <= WrapTime
    ensures Recipients(r.1) == l.players
    ensures forall d :: d in r.1 ==> d.packet == TimeUpdate(r.0.time, r.0.day)
  {
    var l' := if l.time < WrapTime then l.(time := l.time + 1) else l.(time := 0, day := l.day + 1);
    (l', Broadcast(l.players, TimeUpdate(l'.time, l'.day)))
  }

  /** The level after `k` day ticks. */
  function Days(l: Level, k: nat): Level
    decreases k
  {
    if k == 0 then l else Days(DayTick(l).0, k - 1)
  }

  /** Ticks compose. */
  lemma {:induction false} DaysAdd(l: Level, a: nat, b: nat)
    ensures Days(l, a + b) == Days(Days(l, a), b)
    decreases a
  {
    if a > 0 {
      DaysAdd(DayTick(l).0, a - 1, b);
    }
  }

  /** Below the wrap point the clock just climbs, one unit per tick, on the same day. */
  lemma {:induction false} DaysClimb(l: Level, k: nat)
    requires 0 <= l.time && l.time + k <= WrapTime
    ensures Days(l, k) == l.(time := l.time + k)
    decreases k
  {
    if k > 0 {
      DaysClimb(DayTick(l).0, k - 1);
    }
  }

  /**
   * A full day is 24001 ticks: from any clock value in [0, 24000] the clock is
   * back at the same value after exactly 24001 ticks, one day later, and
   * starting from 0 it does not reach 0 again earlier.
   */
  lemma {:induction false} DayCycle(l: Level)
    requires 0 <= l.time <= WrapTime
    ensures Days(l, WrapTime + 1) == l.(day := l.day + 1)
    ensures l.time == 0 ==> forall k :: 1 <= k <= WrapTime ==> Days(l, k).time == k
  {
    var up := WrapTime - l.time;
    DaysClimb(l, up);
    var top := l.(time := WrapTime);
    var wrapped := l.(time := 0, day := l.day + 1);
    assert Days(top, 1) == wrapped;
    DaysClimb(wrapped, l.time);
    DaysAdd(l, up, 1);
    DaysAdd(l, up + 1, l.time);
    forall k | l.time == 0 && 1 <= k <= WrapTime ensures Days(l, k).time == k {
      DaysClimb(l, k);
    }
  }

  /**
   * `WeatherTick`: the raining flag flips only when the countdown is 0. Rain
   * that starts lasts a draw in [12000, 36000) ticks; dry weather that starts
   * lasts a draw in [24000, 96000); otherwise the countdown drops by one.
   * Every flip is announced to every player.
   */
  function WeatherTick(l: Level, draw: nat): (r: (Level, seq<Delivery>))
    ensures r.0 == l.(raining := r.0.raining, timeToRain := r.0.timeToRain)
    ensures r.0.raining != l.raining <==> l.timeToRain == 0
    ensures r.0.raining && !l.raining ==> 12000 <= r.0.timeToRain < 36000
    ensures !r.0.raining && l.raining ==> 24000 <= r.0.timeToRain < 96000
    ensures r.0.raining == l.raining ==> r.0.timeToRain == l.timeToRain - 1 && r.1 == []
    ensures l.timeToRain >= 0 ==> r.0.timeToRain >= 0
    ensures r.0.raining != l.raining ==>
      && Recipients(r.1) == l.players
      && forall d :: d in r.1 ==> d.packet == ChangeGameState(if r.0.raining then BeginRaining else EndRaining)
  {
    if l.timeToRain == 0 && !l.raining then
      (l.(raining := true, timeToRain := RandomNext(draw, 12000, 36000)),
       Broadcast(l.players, ChangeGameState(BeginRaining)))
    else if !l.raining then
      (l.(timeToRain := l.timeToRain - 1), [])
    else if l.raining && l.timeToRain == 0 then
      (l.(raining := false, timeToRain := RandomNext(draw, 24000, 96000)),
       Broadcast(l.players, ChangeGameState(EndRaining)))
    else
      (l.(timeToRain := l.timeToRain - 1), [])
  }

  /**
   * The save counter of `GameTick`: at 3000 the chunks are saved and the
   * counter restarts at 0, otherwise it counts up. The boolean says whether a
   * save happened.
   */
  function SaveStep(n: int): (r: (int, bool))
    ensures r.1 <==> n == SaveAt
    ensures r.1 ==> r.0 == 0
    ensures !r.1 ==> r.0 == n + 1
    ensures 0 <= n <= SaveAt ==> 0 <= r.0 <= SaveAt
  {
    if n == SaveAt then (0, true) else (n + 1, false)
  }

  /** The counter after `k` ticks from `n`, and how many saves those ticks made. */
  function SaveRun(n: int, k: nat): (int, nat)
    decreases k
  {
    if k == 0 then (n, 0)
    else
      var s := SaveStep(n);
      var r := SaveRun(s.0, k - 1);
      (r.0, r.1 + if s.1 then 1 else 0)
  }

  /** Runs compose: counters chain and saves add up. */
  lemma {:induction false} SaveRunAdd(n: int, a: nat, b: nat)
    ensures SaveRun(n, a + b).0 == SaveRun(SaveRun(n, a).0, b).0
    ensures SaveRun(n, a + b).1 == SaveRun(n, a).1 + SaveRun(SaveRun(n, a).0, b).1
    decreases a
  {
    if a > 0 {
      SaveRunAdd(SaveStep(n).0, a - 1, b);
    }
  }

  /** Below 3000 the counter climbs without saving. */
  lemma {:induction false} SaveRunClimb(n: int, k: nat)
    requires 0 <= n && n + k <= SaveAt
    ensures SaveRun(n, k) == (n + k, 0)
    decreases k
  {
    if k > 0 {
      SaveRunClimb(n + 1, k - 1);
    }
  }

  /** Saving happens once every 3001 ticks: from any counter value in range, 3001 ticks make exactly one save and return the counter. */
  lemma {:induction false} SaveCycle(n: int)
    requires 0 <= n <= SaveAt
    ensures SaveRun(n, SaveAt + 1) == (n, 1)
  {
    var up := SaveAt - n;
    SaveRunClimb(n, up);
    assert SaveRun(SaveAt, 1) == (0, 1);
    SaveRunClimb(0, n);
    SaveRunAdd(n, up, 1);
    SaveRunAdd(n, up + 1, n);
  }

  /**
   * `CalculateTps`: `(1000 - lastMs) / 50` with C#'s truncating division, where
   * `lastMs` is the duration of the previous tick in milliseconds.
   */
  function CalculateTps(lastMs: int): (tps: int)
    ensures lastMs <= 1000 ==> tps * 50 <= 1000 - lastMs < tps * 50 + 50
    ensures lastMs > 1000 ==> tps * 50 - 50 < 1000 - lastMs <= tps * 50
    ensures lastMs >= 0 ==> tps <= 20
  {
    TruncDiv(1000 - lastMs, 50)
  }

  /** A tick under 50 ms over budget still reports 0, not -1: the quotient is truncated, not floored. */
  lemma TpsTruncates(lastMs: int)
    requires 1000 < lastMs < 1050
    ensures CalculateTps(lastMs) == 0
  {
  }

  /** Everything one game tick produces. */
  datatype TickReport = TickReport(level: Level, sent: seq<Delivery>, ticked: seq<Coord>, saved: bool)

  /**
   * `GameTick`: day, then weather, then the block-tick drain at the advanced
   * clock, then the save counter. `draw` is the random source of the weather,
   * `order` the enumeration order of the queue snapshot and `effect` what the
   * ticked blocks schedule.
   */
  function GameTick(l: Level, draw: nat, order: seq<Coord>, effect: TickEffect): (r: TickReport)
    requires Enumerates(order, l.blockTicks)
    ensures Valid(l) ==> Valid(r.level)
    ensures r.level.players == l.players && r.level.entities == l.entities
    // The day clock.
    ensures l.time < WrapTime ==> r.level.time == l.time + 1 && r.level.day == l.day
    ensures l.time >= WrapTime ==> r.level.time == 0 && r.level.day == l.day + 1
    // The weather countdown.
    ensures r.level.raining != l.raining <==> l.timeToRain == 0
    ensures r.level.raining == l.raining ==> r.level.timeToRain == l.timeToRain - 1
    ensures r.level.raining && !l.raining ==> 12000 <= r.level.timeToRain < 36000
    ensures !r.level.raining && l.raining ==> 24000 <= r.level.timeToRain < 96000
    // The block-tick queue, drained at the advanced clock.
    ensures forall k :: k in r.ticked <==> k in l.blockTicks && l.blockTicks[k] <= r.level.time
    ensures Distinct(r.ticked)
    ensures forall k :: k in l.blockTicks && l.blockTicks[k] > r.level.time
                        && k !in RequestedBy(order, l.blockTicks, r.level.time, effect) ==>
                          k in r.level.blockTicks && r.level.blockTicks[k] == l.blockTicks[k]
    ensures forall k :: k !in l.blockTicks && k !in RequestedBy(order, l.blockTicks, r.level.time, effect) ==>
                          k !in r.level.blockTicks
    ensures forall k :: k in l.blockTicks && l.blockTicks[k] <= r.level.time
                        && k !in RequestedBy(order, l.blockTicks, r.level.time, effect) ==>
                          k !in r.level.blockTicks
    // The save counter.
    ensures r.saved <==> l.saveTick == SaveAt
    ensures r.saved ==> r.level.saveTick == 0
    ensures !r.saved ==> r.level.saveTick == l.saveTick + 1
    // What is sent: the time to every player, then the weather change if any.
    ensures |r.sent| >= |l.players|
    ensures Recipients(r.sent[..|l.players|]) == l.players
    ensures forall i :: 0 <= i < |l.players| ==> r.sent[i].packet == TimeUpdate(r.level.time, r.level.day)
    ensures r.level.raining == l.raining ==> |r.sent| == |l.players|
    ensures r.level.raining != l.raining ==>
      && Recipients(r.sent[|l.players|..]) == l.players
      && forall d :: d in r.sent[|l.players|..] ==>
           d.packet == ChangeGameState(if r.level.raining then BeginRaining else EndRaining)
  {
    var (afterDay, timeSent) := DayTick(l);
    var (afterWeather, weatherSent) := WeatherTick(afterDay, draw);
    var d := Drain(afterWeather.blockTicks, afterWeather.time, order, effect);
    var (counter, saved) := SaveStep(afterWeather.saveTick);
    var sent := timeSent + weatherSent;
    assert sent[..|l.players|] == timeSent;
    assert sent[|l.players|..] == weatherSent;
    assert forall i :: 0 <= i < |l.players| ==> sent[i] == timeSent[i];
    TickReport(afterWeather.(blockTicks := d.queue, saveTick := counter), sent, d.ticked, saved)
  }

  /**
   * An entry due after the wrap time is never ticked: the clock never passes
   * 24000, so such an entry stays queued with its due time for as long as no
   * tick callback reschedules it.
   */
  lemma LateEntryStays(l: Level, draw: nat, order: seq<Coord>, effect: TickEffect, k: Coord)
    requires Valid(l) && Enumerates(order, l.blockTicks)
    requires k in l.blockTicks && l.blockTicks[k] > WrapTime
    ensures var r := GameTick(l, draw, order, effect);
      && Valid(r.level)
      && k !in r.ticked
      && (k !in RequestedBy(order, l.blockTicks, r.level.time, effect) ==>
            k in r.level.blockTicks && r.level.blockTicks[k] == l.blockTicks[k])
  {
  }
}
