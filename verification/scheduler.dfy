/** The scheduling core: the next firing instant from the target hours, the
    random jitter, and the main loop that waits, jitters and runs the form
    submission, recorded as a trace of events.

    Instants are whole milliseconds on a local clock without daylight-saving
    jumps: day `d` starts at `d * MsPerDay`. The clock and `Math.random` are
    inputs, so every operation here is deterministic. */
module Scheduler {

  import opened Wrappers

  const MsPerSecond := 1000
  const MsPerMinute := 60_000
  const MsPerHour := 3_600_000
  const MsPerDay := 86_400_000

  // ---------------------------------------------------------------------------
  // Calendar arithmetic

  /** The day an instant falls on (floor division, also for instants before the epoch). */
  function Day(t: int): int {
    t / MsPerDay
  }

  /** The hour of the day an instant falls in. */
  function HourOf(t: int): int {
    (t % MsPerDay) / MsPerHour
  }

  /** `new Date(now.getFullYear(), now.getMonth(), now.getDate())`: the start of `now`'s day. */
  function Midnight(now: int): (m: int)
    ensures m <= now < m + MsPerDay
    ensures Day(m) == Day(now) && m % MsPerDay == 0
  {
    Day(now) * MsPerDay
  }

  /** A day's start plus `hour` hours, as `setHours(hour, 0, 0, 0)` computes it;
      an hour outside 0..23 rolls over into a neighbouring day, as setHours does. */
  function AtHour(midnight: int, hour: int): int {
    midnight + hour * MsPerHour
  }

  /** Today's candidate for a target hour. */
  function Candidate(now: int, hour: int): int {
    AtHour(Midnight(now), hour)
  }

  lemma AtHourSplits(day: int, hour: int)
    requires 0 <= hour < 24
    ensures Day(AtHour(day * MsPerDay, hour)) == day
    ensures HourOf(AtHour(day * MsPerDay, hour)) == hour
    ensures AtHour(day * MsPerDay, hour) % MsPerHour == 0
  {
    var t := AtHour(day * MsPerDay, hour);
    assert 0 <= hour * MsPerHour < MsPerDay;
    DivModUnique(t, MsPerDay, day, hour * MsPerHour);
    DivModUnique(hour * MsPerHour, MsPerHour, hour, 0);
    DivModUnique(t, MsPerHour, day * 24 + hour, 0);
  }

  /** `setHours(hour, 0, 0, 0)` zeroes minutes, seconds and milliseconds for
      every integer hour, including ones that roll into another day. */
  lemma OnTheHour(day: int, hour: int)
    ensures AtHour(day * MsPerDay, hour) % MsPerHour == 0
  {
    DivModUnique(AtHour(day * MsPerDay, hour), MsPerHour, day * 24 + hour, 0);
  }

  /** Quotient and remainder are the only pair that rebuilds `t`. */
  lemma DivModUnique(t: int, d: int, q: int, r: int)
    requires d > 0 && 0 <= r < d && t == q * d + r
    ensures t / d == q && t % d == r
  {
    var q', r' := t / d, t % d;
    assert t == q' * d + r';
    if q > q' {
      assert (q - q') * d == q * d - q' * d;
      MulAtLeast(q - q', d);
    } else if q < q' {
      assert (q' - q) * d == q' * d - q * d;
      MulAtLeast(q' - q, d);
    }
  }

  lemma {:induction false} MulAtLeast(a: int, d: int)
    requires a >= 1 && d > 0
    ensures a * d >= d
    decreases a
  {
    if a > 1 {
      MulAtLeast(a - 1, d);
      assert a * d == (a - 1) * d + d;
    }
  }

  // ---------------------------------------------------------------------------
  // Next run time

  /** The loop over the target hours: the earliest of today's candidates that
      is strictly later than `now`, or None when no candidate is. */
  function EarliestAfter(hours: seq<int>, now: int): (next: Option<int>)
    ensures next.Some? <==> exists i :: 0 <= i < |hours| && Candidate(now, hours[i]) > now
    ensures next.Some? ==> next.value > now
    ensures next.Some? ==> exists i :: 0 <= i < |hours| && next.value == Candidate(now, hours[i])
    ensures next.Some? ==> forall i :: 0 <= i < |hours| && Candidate(now, hours[i]) > now ==>
                             next.value <= Candidate(now, hours[i])
  {
    if |hours| == 0 then None
    else
      var prefix := hours[..|hours| - 1];
      var next := EarliestAfter(prefix, now);
      var candidate := Candidate(now, hours[|hours| - 1]);
      assert forall i :: 0 <= i < |prefix| ==> prefix[i] == hours[i];
      if candidate > now && (next.None? || candidate < next.value) then Some(candidate) else next
  }

  /** The next firing instant: the earliest of today's candidates after `now`,
      else tomorrow at the FIRST listed hour. An empty list gives None, the
      Invalid Date that `setHours(undefined)` produces. */
  function NextRunTime(targetHours: seq<int>, now: int): (next: Option<int>)
    ensures next.None? <==> |targetHours| == 0
  {
    if |targetHours| == 0 then None
    else match EarliestAfter(targetHours, now)
      case Some(t) => Some(t)
      case None => Some(AtHour(Midnight(now) + MsPerDay, targetHours[0]))
  }

  /** `getNextRunTime`, with the clock reading `now` passed in. */
  method GetNextRunTime(targetHours: seq<int>, now: int) returns (next: Option<int>)
    ensures next == NextRunTime(targetHours, now)
  {
    var today := Midnight(now);
    next := None;
    for k := 0 to |targetHours|
      invariant next == EarliestAfter(targetHours[..k], now)
    {
      var candidate := AtHour(today, targetHours[k]);
      if candidate > now {
        if next.None? || candidate < next.value {
          next := Some(candidate);
        }
      }
      assert targetHours[..k + 1][..k] == targetHours[..k];
    }
    assert targetHours[..|targetHours|] == targetHours;
    if next.None? {
      if |targetHours| > 0 {
        next := Some(AtHour(today + MsPerDay, targetHours[0]));
      }
    }
  }

  /** The result is strictly later than `now` (so a candidate equal to `now` is
      never chosen), provided the first listed hour is not negative. */
  lemma NextRunIsFuture(targetHours: seq<int>, now: int)
    requires |targetHours| > 0 && targetHours[0] >= 0
    ensures NextRunTime(targetHours, now).value > now
  {
    if EarliestAfter(targetHours, now).None? {
      assert targetHours[0] * MsPerHour >= 0;
    }
  }

  /** When some candidate today is later than `now`, the result is the earliest
      such candidate, and (for hours in 0..23) it falls on `now`'s day. */
  lemma NextRunIsEarliestToday(targetHours: seq<int>, now: int, i: nat)
    requires i < |targetHours| && Candidate(now, targetHours[i]) > now
    ensures var t := NextRunTime(targetHours, now).value;
            && now < t <= Candidate(now, targetHours[i])
            && (exists j :: 0 <= j < |targetHours| && t == Candidate(now, targetHours[j]))
            && forall j :: 0 <= j < |targetHours| && Candidate(now, targetHours[j]) > now ==>
                 t <= Candidate(now, targetHours[j])
    ensures (forall j :: 0 <= j < |targetHours| ==> 0 <= targetHours[j] < 24) ==>
              Day(NextRunTime(targetHours, now).value) == Day(now)
  {
    var t := NextRunTime(targetHours, now).value;
    if forall j :: 0 <= j < |targetHours| ==> 0 <= targetHours[j] < 24 {
      var j :| 0 <= j < |targetHours| && t == Candidate(now, targetHours[j]);
      AtHourSplits(Day(now), targetHours[j]);
    }
  }

  /** When no candidate today is later than `now`, the result is the next day
      at the first listed hour, whatever the other hours are. */
  lemma NextRunFallsBackToFirstHour(targetHours: seq<int>, now: int)
    requires |targetHours| > 0
    requires forall i :: 0 <= i < |targetHours| ==> Candidate(now, targetHours[i]) <= now
    ensures NextRunTime(targetHours, now) == Some(AtHour(Midnight(now) + MsPerDay, targetHours[0]))
    ensures 0 <= targetHours[0] < 24 ==>
              var t := NextRunTime(targetHours, now).value;
              Day(t) == Day(now) + 1 && HourOf(t) == targetHours[0]
  {
    if 0 <= targetHours[0] < 24 {
      assert Midnight(now) + MsPerDay == (Day(now) + 1) * MsPerDay;
      AtHourSplits(Day(now) + 1, targetHours[0]);
    }
  }

  /** The fallback is the earliest of tomorrow's target times only when the
      first listed hour is also the smallest. */
  lemma FallbackEarliestWhenFirstIsSmallest(targetHours: seq<int>, now: int)
    requires |targetHours| > 0
    requires forall i :: 0 <= i < |targetHours| ==> Candidate(now, targetHours[i]) <= now
    requires forall i :: 0 <= i < |targetHours| ==> targetHours[0] <= targetHours[i]
    ensures forall i :: 0 <= i < |targetHours| ==>
              NextRunTime(targetHours, now).value <= AtHour(Midnight(now) + MsPerDay, targetHours[i])
  {
    forall i | 0 <= i < |targetHours|
      ensures AtHour(Midnight(now) + MsPerDay, targetHours[0]) <= AtHour(Midnight(now) + MsPerDay, targetHours[i])
    {
      assert targetHours[0] * MsPerHour <= targetHours[i] * MsPerHour;
    }
  }

  /** With the hours listed out of order, the fallback skips an earlier target
      time: at 17:00 with hours [16, 8] the next run is tomorrow 16:00, not
      tomorrow 08:00. */
  lemma FallbackSkipsEarlierUnsortedHour()
    ensures var now := 17 * MsPerHour;
            && NextRunTime([16, 8], now) == Some(MsPerDay + 16 * MsPerHour)
            && AtHour(Midnight(now) + MsPerDay, 8) < NextRunTime([16, 8], now).value
  {
    var now := 17 * MsPerHour;
    assert Midnight(now) == 0;
    assert EarliestAfter([16, 8], now) == None;
  }

  /** The result is always on the hour: minutes, seconds and milliseconds are 0,
      and for hours in 0..23 its hour is one of the target hours. */
  lemma NextRunOnTargetHour(targetHours: seq<int>, now: int)
    requires |targetHours| > 0
    ensures NextRunTime(targetHours, now).value % MsPerHour == 0
    ensures (forall j :: 0 <= j < |targetHours| ==> 0 <= targetHours[j] < 24) ==>
              exists j :: 0 <= j < |targetHours| && HourOf(NextRunTime(targetHours, now).value) == targetHours[j]
  {
    var t := NextRunTime(targetHours, now).value;
    var inRange := forall j :: 0 <= j < |targetHours| ==> 0 <= targetHours[j] < 24;
    match EarliestAfter(targetHours, now)
    case Some(_) =>
      var j :| 0 <= j < |targetHours| && t == Candidate(now, targetHours[j]);
      OnTheHour(Day(now), targetHours[j]);
      if inRange {
        AtHourSplits(Day(now), targetHours[j]);
      }
    case None =>
      assert Midnight(now) + MsPerDay == (Day(now) + 1) * MsPerDay;
      OnTheHour(Day(now) + 1, targetHours[0]);
      if inRange {
        AtHourSplits(Day(now) + 1, targetHours[0]);
      }
  }

  /** On 2024-01-01 (day 19723) with hours [8, 13, 16]: at 09:00 the next run
      is 13:00 the same day; at 17:00 it is 08:00 the next day. */
  lemma NextRunExamples()
    ensures NextRunTime([8, 13, 16], 19723 * MsPerDay + 9 * MsPerHour)
              == Some(19723 * MsPerDay + 13 * MsPerHour)
    ensures NextRunTime([8, 13, 16], 19723 * MsPerDay + 17 * MsPerHour)
              == Some(19724 * MsPerDay + 8 * MsPerHour)
  {
    var hours := [8, 13, 16];
    assert hours[..2] == [8, 13] && hours[..2][..1] == [8] && [8][..0] == [];
    var morning := 19723 * MsPerDay + 9 * MsPerHour;
    assert Midnight(morning) == 19723 * MsPerDay;
    assert EarliestAfter([8], morning) == None;
    assert EarliestAfter([8, 13], morning) == Some(19723 * MsPerDay + 13 * MsPerHour);
    var evening := 19723 * MsPerDay + 17 * MsPerHour;
    assert Midnight(evening) == 19723 * MsPerDay;
    assert EarliestAfter([8], evening) == None;
    assert EarliestAfter([8, 13], evening) == None;
  }

  // ---------------------------------------------------------------------------
  // Jitter

  /** `Math.floor(Math.random() * (max - min + 1)) + min`, with the random draw
      `draw` in [0, 1) passed in. */
  function RandomDelay(minDelay: int, maxDelay: int, draw: real): (delay: int)
    requires 0.0 <= draw < 1.0
    ensures minDelay <= maxDelay ==> minDelay <= delay <= maxDelay
  {
    var width := maxDelay - minDelay + 1;
    ScaledDrawBounds(draw, width);
    (draw * width as real).Floor + minDelay
  }

  lemma ScaledDrawBounds(draw: real, width: int)
    requires 0.0 <= draw < 1.0
    ensures width >= 1 ==> 0 <= (draw * width as real).Floor < width
  {
    if width >= 1 {
      var w := width as real;
      assert draw * w <= 1.0 * w - (1.0 - draw) * w;
      assert (1.0 - draw) * w > 0.0;
    }
  }

  /** Every delay in [min, max] is produced by some draw, so the jitter covers
      its whole range. */
  lemma RandomDelayCovers(minDelay: int, maxDelay: int, delay: int)
    requires minDelay <= delay <= maxDelay
    ensures var draw := (delay - minDelay) as real / (maxDelay - minDelay + 1) as real;
            0.0 <= draw < 1.0 && RandomDelay(minDelay, maxDelay, draw) == delay
  {
    var w := (maxDelay - minDelay + 1) as real;
    var k := (delay - minDelay) as real;
    var draw := k / w;
    assert draw * w == k;
    assert ((delay - minDelay) as real).Floor == delay - minDelay;
  }

  /** `Math.round(ms / 60000)`: the nearest whole minute, halves rounded up. */
  function RoundMinutes(ms: int): (minutes: int)
    ensures minutes * MsPerMinute - MsPerMinute / 2 <= ms < minutes * MsPerMinute + MsPerMinute / 2
  {
    (2 * ms + MsPerMinute) / (2 * MsPerMinute)
  }

  // ---------------------------------------------------------------------------
  // The main loop

  /** The settings the loop reads; the form fields are the submission's business. */
  datatype Config = Config(targetHours: seq<int>, minDelaySeconds: int, maxDelaySeconds: int, debug: bool)

  /** The log messages the loop itself writes (their text is summarised by the constructor). */
  datatype Message =
    | Started                                 // Script started - running indefinitely
    | TargetTimes(hours: seq<int>)            // Target times: HH:00, ...
    | DebugImmediate                          // Debug mode: running immediately
    | NextRunScheduled(at: int, inMinutes: int)
    | RandomDelayOf(delay: int)               // Waiting random delay of <delay> seconds before execution...

  /** What the loop does, in order: log lines, sleeps (in milliseconds) and
      runs of the form submission (which logs, waits and recovers from its own
      failures internally). */
  datatype Event =
    | Log(level: string, message: Message)
    | Sleep(ms: int)
    | ExecuteSubmission

  /** What the environment supplies in one pass of the loop: the clock read
      inside the next-run computation, the clock read right after it, and the
      value of `Math.random()`. */
  datatype Round = Round(scheduleNow: int, waitNow: int, draw: real)

  predicate ValidDraws(rounds: seq<Round>) {
    forall i :: 0 <= i < |rounds| ==> 0.0 <= rounds[i].draw < 1.0
  }

  function Preamble(cfg: Config): seq<Event> {
    [Log("INFO", Started), Log("INFO", TargetTimes(cfg.targetHours))]
  }

  /** One pass of the loop: log and sleep until the next run, log and sleep the
      jitter (multiplied by 1000 * 60, so in minutes), then run the submission. */
  function Cycle(cfg: Config, round: Round): (events: seq<Event>)
    requires |cfg.targetHours| > 0 && 0.0 <= round.draw < 1.0
    ensures |events| == 5
  {
    var nextRun := NextRunTime(cfg.targetHours, round.scheduleNow).value;
    var waitMs := nextRun - round.waitNow;
    var delay := RandomDelay(cfg.minDelaySeconds, cfg.maxDelaySeconds, round.draw);
    [ Log("INFO", NextRunScheduled(nextRun, RoundMinutes(waitMs))), Sleep(waitMs),
      Log("INFO", RandomDelayOf(delay)), Sleep(delay * 1000 * 60),
      ExecuteSubmission ]
  }

  function Cycles(cfg: Config, rounds: seq<Round>): seq<Event>
    requires |cfg.targetHours| > 0 && ValidDraws(rounds)
  {
    if |rounds| == 0 then []
    else Cycles(cfg, rounds[..|rounds| - 1]) + Cycle(cfg, rounds[|rounds| - 1])
  }

  /** The trace of the loop over the given rounds: in debug mode one immediate
      submission and nothing else, otherwise one cycle per round. */
  function Run(cfg: Config, rounds: seq<Round>): seq<Event>
    requires cfg.debug || |cfg.targetHours| > 0
    requires ValidDraws(rounds)
  {
    Preamble(cfg) + if cfg.debug then [Log("INFO", DebugImmediate), ExecuteSubmission]
                    else Cycles(cfg, rounds)
  }

  /** One pass of the `while (true)` body: compute the next run, log it and
      sleep until then, draw and log the jitter, sleep it, run the submission. */
  method RunPass(cfg: Config, round: Round) returns (pass: seq<Event>)
    requires |cfg.targetHours| > 0 && 0.0 <= round.draw < 1.0
    ensures pass == Cycle(cfg, round)
  {
    var next := GetNextRunTime(cfg.targetHours, round.scheduleNow);
    var nextRun := next.value;
    var waitMs := nextRun - round.waitNow;
    pass := [Log("INFO", NextRunScheduled(nextRun, RoundMinutes(waitMs)))];
    pass := pass + [Sleep(waitMs)];
    var randomDelay := RandomDelay(cfg.minDelaySeconds, cfg.maxDelaySeconds, round.draw);
    pass := pass + [Log("INFO", RandomDelayOf(randomDelay))];
    pass := pass + [Sleep(randomDelay * 1000 * 60)];
    pass := pass + [ExecuteSubmission];
  }

  /** `mainLoop`, run for as many passes as `rounds` supplies inputs for (the
      source loops forever; every finite prefix of its behaviour is covered). */
  method MainLoop(cfg: Config, rounds: seq<Round>) returns (trace: seq<Event>)
    requires cfg.debug || |cfg.targetHours| > 0
    requires ValidDraws(rounds)
    ensures trace == Run(cfg, rounds)
  {
    trace := [Log("INFO", Started), Log("INFO", TargetTimes(cfg.targetHours))];
    if cfg.debug {
      trace := trace + [Log("INFO", DebugImmediate), ExecuteSubmission];
      return;
    }
    var i := 0;
    while i < |rounds|
      invariant 0 <= i <= |rounds|
      invariant trace == Preamble(cfg) + Cycles(cfg, rounds[..i])
    {
      var pass := RunPass(cfg, rounds[i]);
      CyclesSnoc(cfg, rounds, i);
      trace := trace + pass;
      i := i + 1;
    }
    assert rounds[..|rounds|] == rounds;
  }

  /** The cycles of the first i + 1 rounds are those of the first i and then round i's. */
  lemma CyclesSnoc(cfg: Config, rounds: seq<Round>, i: nat)
    requires |cfg.targetHours| > 0 && ValidDraws(rounds) && i < |rounds|
    ensures ValidDraws(rounds[..i]) && ValidDraws(rounds[..i + 1])
    ensures Cycles(cfg, rounds[..i + 1]) == Cycles(cfg, rounds[..i]) + Cycle(cfg, rounds[i])
  {
    assert rounds[..i + 1][..i] == rounds[..i];
  }

  // ---------------------------------------------------------------------------
  // Properties of the trace

  /** How many times a trace runs the submission. */
  function Executions(trace: seq<Event>): nat {
    multiset(trace)[ExecuteSubmission]
  }

  /** Debug mode runs the submission exactly once and never computes a next
      run or sleeps. */
  lemma DebugRunsOnce(cfg: Config, rounds: seq<Round>)
    requires cfg.debug && ValidDraws(rounds)
    ensures Executions(Run(cfg, rounds)) == 1
    ensures forall e :: e in Run(cfg, rounds) ==> !e.Sleep?
    ensures forall e :: e in Run(cfg, rounds) && e.Log? ==> !e.message.NextRunScheduled?
  {
    var run := Run(cfg, rounds);
    assert run == [Log("INFO", Started), Log("INFO", TargetTimes(cfg.targetHours)),
                   Log("INFO", DebugImmediate), ExecuteSubmission];
  }

  /** Outside debug mode pass `i` of the loop occupies positions 2 + 5i to
      2 + 5i + 4 of the trace, exactly the events of Cycle for round i. */
  lemma {:induction false} RunShape(cfg: Config, rounds: seq<Round>, i: nat)
    requires !cfg.debug && |cfg.targetHours| > 0 && ValidDraws(rounds)
    requires i < |rounds|
    ensures |Run(cfg, rounds)| == 2 + 5 * |rounds|
    ensures Run(cfg, rounds)[2 + 5 * i .. 2 + 5 * i + 5] == Cycle(cfg, rounds[i])
  {
    var cycles := Cycles(cfg, rounds);
    assert Run(cfg, rounds) == Preamble(cfg) + cycles;
    CyclesShape(cfg, rounds, i);
    SkipPrefix(Preamble(cfg), cycles, 5 * i, 5 * i + 5);
  }

  lemma SkipPrefix(prefix: seq<Event>, rest: seq<Event>, lo: nat, hi: nat)
    requires lo <= hi <= |rest|
    ensures (prefix + rest)[|prefix| + lo .. |prefix| + hi] == rest[lo..hi]
  {
    assert (prefix + rest)[|prefix|..] == rest;
  }

  lemma {:induction false} CyclesShape(cfg: Config, rounds: seq<Round>, i: nat)
    requires |cfg.targetHours| > 0 && ValidDraws(rounds)
    requires i < |rounds|
    ensures |Cycles(cfg, rounds)| == 5 * |rounds|
    ensures Cycles(cfg, rounds)[5 * i .. 5 * i + 5] == Cycle(cfg, rounds[i])
    decreases |rounds|
  {
    var prefix := rounds[..|rounds| - 1];
    assert ValidDraws(prefix);
    var earlier := Cycles(cfg, prefix);
    var last := Cycle(cfg, rounds[|rounds| - 1]);
    assert Cycles(cfg, rounds) == earlier + last;
    if |prefix| > 0 {
      CyclesShape(cfg, prefix, if i < |prefix| then i else 0);
    }
    AppendBlock(earlier, last, |prefix|, i);
    if i < |prefix| {
      assert prefix[i] == rounds[i];
    }
  }

  /** Appending a block of five events to `n` such blocks keeps the earlier
      blocks in place and puts the new one at position `n`. */
  lemma AppendBlock(earlier: seq<Event>, last: seq<Event>, n: nat, i: nat)
    requires |earlier| == 5 * n && |last| == 5 && i <= n
    ensures |earlier + last| == 5 * (n + 1)
    ensures i < n ==> (earlier + last)[5 * i .. 5 * i + 5] == earlier[5 * i .. 5 * i + 5]
    ensures i == n ==> (earlier + last)[5 * i .. 5 * i + 5] == last
  {
    if i < n {
      assert (earlier + last)[5 * i .. 5 * i + 5] == earlier[5 * i .. 5 * i + 5];
    } else {
      assert (earlier + last)[5 * i .. 5 * i + 5] == last;
    }
  }

  /** Outside debug mode, every pass runs the submission once. */
  lemma {:induction false} RunExecutesOncePerRound(cfg: Config, rounds: seq<Round>)
    requires !cfg.debug && |cfg.targetHours| > 0 && ValidDraws(rounds)
    ensures Executions(Run(cfg, rounds)) == |rounds|
  {
    CyclesExecuteOncePerRound(cfg, rounds);
  }

  lemma {:induction false} CyclesExecuteOncePerRound(cfg: Config, rounds: seq<Round>)
    requires |cfg.targetHours| > 0 && ValidDraws(rounds)
    ensures Executions(Cycles(cfg, rounds)) == |rounds|
    decreases |rounds|
  {
    if |rounds| > 0 {
      var prefix := rounds[..|rounds| - 1];
      assert ValidDraws(prefix);
      CyclesExecuteOncePerRound(cfg, prefix);
      var c := Cycle(cfg, rounds[|rounds| - 1]);
      assert multiset(c)[ExecuteSubmission] == 1;
    }
  }

  /** Within a pass: the first sleep lasts until the computed next run, which is
      strictly after the clock reading it was computed from when the first
      listed hour is not negative; the second sleep is
      the logged jitter times 60 000 ms, i.e. minutes although the message says
      seconds, and lies between min and max minutes; then the submission runs. */
  lemma CycleOrder(cfg: Config, round: Round)
    requires |cfg.targetHours| > 0
    requires 0.0 <= round.draw < 1.0
    ensures var c := Cycle(cfg, round);
            var nextRun := NextRunTime(cfg.targetHours, round.scheduleNow).value;
            && |c| == 5
            && c[0] == Log("INFO", NextRunScheduled(nextRun, RoundMinutes(nextRun - round.waitNow)))
            && c[1] == Sleep(nextRun - round.waitNow)
            && (cfg.targetHours[0] >= 0 ==> nextRun > round.scheduleNow)
            && c[2].Log? && c[2].message.RandomDelayOf?
            && c[3] == Sleep(c[2].message.delay * MsPerSecond * 60)
            && c[4] == ExecuteSubmission
    ensures var c := Cycle(cfg, round);
            cfg.minDelaySeconds <= cfg.maxDelaySeconds ==>
              cfg.minDelaySeconds * MsPerMinute <= c[3].ms <= cfg.maxDelaySeconds * MsPerMinute
  {
    if cfg.targetHours[0] >= 0 {
      NextRunIsFuture(cfg.targetHours, round.scheduleNow);
    }
    var d := RandomDelay(cfg.minDelaySeconds, cfg.maxDelaySeconds, round.draw);
    if cfg.minDelaySeconds <= cfg.maxDelaySeconds {
      assert cfg.minDelaySeconds * MsPerMinute <= d * MsPerMinute <= cfg.maxDelaySeconds * MsPerMinute;
    }
  }
}
