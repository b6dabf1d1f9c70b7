/** The throttled reloading of directories: src/loader.c and src/loadable.h. One `loadable` at a time as a
    state machine over its events; the class below is the code, over all loadables and the timers map. */
module LoaderSpec {

  /** `inotify_timeout` and `inotify_delay`, in milliseconds. */
  datatype Config = Config(timeout: nat, delay: nat) {
    function Gap(): nat {
      timeout + delay
    }
  }

  const U64: nat := 0x1_0000_0000_0000_0000

  /** A libev timer that was set with `ev_timer_again`: with a zero repeat it does not start at all. */
  datatype Timer = Idle | Due(at: nat)

  /** The fields of `loadable_data`, its entry in the timers map, whether the update of its latest load is
      still to be applied (`inFlight`), and the times at which `load` started a load. */
  datatype State = State(nextScheduled: nat, nextRequested: nat, isScheduled: bool, inProgress: bool,
                         timer: Option<Timer>, inFlight: bool, starts: seq<nat>)

  datatype Option<T> = None | Some(value: T)

  const INIT := State(0, 0, false, false, None, false, [])

  function Again(delay: nat, now: nat): Timer {
    if delay == 0 then Idle else Due(now + delay)
  }

  function Load(s: State, now: nat): State {
    s.(nextScheduled := now, nextRequested := 0, inProgress := true, inFlight := true, starts := s.starts + [now])
  }

  function Rearm(s: State, time: nat, timer: Timer): State {
    s.(nextScheduled := time, nextRequested := 0, isScheduled := true, timer := Some(timer))
  }

  /** The delay is computed in unsigned 64 bit arithmetic, from a clock read of its own. */
  function Schedule(s: State, time: nat, now: nat): State {
    if s.isScheduled then s else Rearm(s, time, Again((time - now) % U64, now))
  }

  function NextTime(latest: nat, now: nat, cfg: Config): nat {
    if now < latest + cfg.timeout then latest + cfg.timeout + cfg.delay else now + cfg.delay
  }

  /** `t` is at least `inotify_delay` away from now and a whole gap away from `latest`. */
  predicate Admits(t: nat, latest: nat, now: nat, cfg: Config) {
    t >= now + cfg.delay && t >= latest + cfg.timeout + cfg.delay
  }

  ghost predicate IsEarliest(t: nat, latest: nat, now: nat, cfg: Config) {
    Admits(t, latest, now, cfg) && forall u: nat :: Admits(u, latest, now, cfg) ==> t <= u
  }

  /** `now` and `later` are the two clock reads of the handlers that read it twice: the callback reads it again
      when it loads, and both when they schedule. */
  datatype Event =
    | Reload(now: nat, later: nat)
    | TimerFires(now: nat)
    | Callback(now: nat, later: nat)
    | Reschedule(now: nat)
    | LoadDirectly(now: nat)
  {
    function Last(): nat {
      if Reload? || Callback? then later else now
    }
  }

  predicate Enabled(s: State, e: Event) {
    match e
    case Reload(now, later) => now <= later
    case TimerFires(now) => s.timer.Some? && s.timer.value.Due? && s.timer.value.at <= now
    case Callback(now, later) => s.inFlight && now <= later
    case Reschedule(_) => true
    case LoadDirectly(_) => true
  }

  function Next(s: State, e: Event, cfg: Config): State {
    match e
    case Reload(now, later) =>
      if s.isScheduled || s.nextRequested > 0 || s.nextScheduled >= now + cfg.timeout then s
      else
        var next := NextTime(s.nextScheduled, now, cfg);
        if s.inProgress then s.(nextRequested := next) else Schedule(s, next, later)
    case TimerFires(now) => Load(s.(isScheduled := false), now).(timer := None)
    case Callback(now, later) =>
      var s' := s.(inProgress := false, inFlight := false);
      if s.nextRequested == 0 then s'
      else if s.nextRequested <= now then Load(s', later)
      else Schedule(s', s.nextRequested, later)
    case Reschedule(now) =>
      if s.timer.Some? then Rearm(s, now + cfg.Gap(), Again(cfg.Gap(), now)) else s
    case LoadDirectly(_) => s.(inFlight := true)
  }

  // ---------------------------------------------------------------- the invariant

  ghost predicate Inv(s: State, clock: nat, cfg: Config) {
    && (s.isScheduled <==> s.timer.Some?)
    && !(s.isScheduled && s.inProgress)
    && (s.nextRequested > 0 ==> s.inProgress)
    && (s.inProgress ==> s.inFlight)
    && Throttled(s, clock, cfg)
  }

  function LastStart(s: State): nat {
    if s.starts == [] then 0 else s.starts[|s.starts| - 1]
  }

  /** Whatever is scheduled or requested lies a full gap behind the latest start. */
  ghost predicate Throttled(s: State, clock: nat, cfg: Config) {
    && LastStart(s) <= clock
    && Apart(s.starts, cfg.Gap())
    && (!s.isScheduled ==> s.nextScheduled == LastStart(s))
    && (s.isScheduled && s.starts != [] ==> s.nextScheduled >= LastStart(s) + cfg.Gap())
    && (s.timer.Some? ==> s.timer.value in {Idle, Due(s.nextScheduled), Due(s.nextScheduled + U64)})
    && (s.nextRequested > 0 && s.starts != [] ==> s.nextRequested >= LastStart(s) + cfg.Gap())
    && s.nextScheduled <= clock + cfg.Gap() && s.nextRequested <= clock + cfg.Gap()
  }

  ghost predicate Apart(starts: seq<nat>, gap: nat) {
    forall i :: 0 < i < |starts| ==> starts[i] >= starts[i - 1] + gap
  }

  lemma ApartAppend(starts: seq<nat>, now: nat, gap: nat)
    requires Apart(starts, gap) && (starts == [] || now >= starts[|starts| - 1] + gap)
    ensures Apart(starts + [now], gap)
  {
  }

  lemma WrapsForward(time: nat, now: nat)
    requires time < U64 && now < U64
    ensures (time - now) % U64 == if now <= time then time - now else U64 + time - now
  {
  }

  /** The clock and everything derived from it fits 64 bits. */
  predicate Fits(clock: nat, cfg: Config) {
    cfg.timeout > 0 && clock + cfg.Gap() < U64
  }

  /** A timer set by `Schedule` never fires early; it starts at all exactly if the second clock read still
      lies before the scheduled time. */
  lemma Armed(time: nat, now: nat)
    requires time < U64 && now < U64
    ensures now < time ==> Again((time - now) % U64, now) == Due(time)
    ensures now == time ==> Again((time - now) % U64, now) == Idle
    ensures now > time ==> Again((time - now) % U64, now) == Due(time + U64)
  {
    WrapsForward(time, now);
  }

  lemma LoadKeeps(s: State, now: nat, cfg: Config)
    requires Apart(s.starts, cfg.Gap()) && (s.starts == [] || now >= LastStart(s) + cfg.Gap())
    requires !s.isScheduled && s.timer.None?
    ensures Inv(Load(s, now), now, cfg)
  {
    ApartAppend(s.starts, now, cfg.Gap());
  }

  lemma ScheduleKeeps(s: State, time: nat, clock: nat, now: nat, cfg: Config)
    requires Inv(s.(nextRequested := 0), clock, cfg) && Fits(now, cfg) && clock <= now && !s.inProgress &&
      !s.isScheduled
    requires s.starts != [] ==> time >= LastStart(s) + cfg.Gap()
    requires time <= now + cfg.Gap()
    ensures Inv(Schedule(s, time, now), now, cfg)
  {
    Armed(time, now);
  }

  lemma ReloadKeeps(s: State, now: nat, later: nat, clock: nat, cfg: Config)
    requires Inv(s, clock, cfg) && Fits(later, cfg) && clock <= now <= later
    ensures Inv(Next(s, Reload(now, later), cfg), later, cfg)
  {
    if !s.isScheduled && !s.inProgress {
      ScheduleKeeps(s, NextTime(s.nextScheduled, now, cfg), clock, later, cfg);
    }
  }

  lemma StepKeeps(s: State, e: Event, clock: nat, cfg: Config)
    requires Inv(s, clock, cfg) && Enabled(s, e) && Fits(e.Last(), cfg)
    requires clock <= (if e.Reload? || e.Callback? then e.now else e.Last())
    ensures Inv(Next(s, e, cfg), e.Last(), cfg)
  {
    match e
    case Reload(now, later) =>
      ReloadKeeps(s, now, later, clock, cfg);
    case TimerFires(now) =>
      LoadKeeps(s.(isScheduled := false, timer := None), now, cfg);
      assert Next(s, e, cfg) == Load(s.(isScheduled := false, timer := None), now);
    case Callback(now, later) =>
      var s' := s.(inProgress := false, inFlight := false);
      if s.nextRequested > 0 {
        if s.nextRequested <= now {
          LoadKeeps(s', later, cfg);
        } else {
          ScheduleKeeps(s', s.nextRequested, clock, later, cfg);
        }
      }
    case Reschedule(now) =>
    case LoadDirectly(now) =>
  }

  // ---------------------------------------------------------------- all runs

  /** `states` is a run from the initial state through `events`, under a clock that never goes back. */
  ghost predicate IsRun(states: seq<State>, events: seq<Event>, cfg: Config) {
    && |states| == |events| + 1 && states[0] == INIT && cfg.timeout > 0
    && (forall i :: 0 <= i < |events| ==> Leads(states[i], events[i], states[i + 1], cfg))
    && (forall i :: 0 < i < |events| ==> events[i - 1].Last() <= events[i].now)
  }

  ghost predicate Leads(s: State, e: Event, s': State, cfg: Config) {
    Enabled(s, e) && Fits(e.Last(), cfg) && s' == Next(s, e, cfg)
  }

  function ClockAt(events: seq<Event>, i: nat): nat
    requires i <= |events|
  {
    if i == 0 then 0 else events[i - 1].Last()
  }

  lemma {:induction false} RunInv(states: seq<State>, events: seq<Event>, i: nat, cfg: Config)
    requires IsRun(states, events, cfg) && i <= |events|
    ensures Inv(states[i], ClockAt(events, i), cfg)
  {
    if i > 0 {
      RunInv(states, events, i - 1, cfg);
      assert Leads(states[i - 1], events[i - 1], states[i - 1 + 1], cfg);
      StepKeeps(states[i - 1], events[i - 1], ClockAt(events, i - 1), cfg);
    }
  }

  /** In every run, scheduled loads of one directory start at least `inotify_timeout` apart, in fact a full
      gap, however requests, finished loads and rescheduling interleave. */
  lemma StartsApart(states: seq<State>, events: seq<Event>, i: nat, k: nat, cfg: Config)
    requires IsRun(states, events, cfg) && i <= |events| && 0 < k < |states[i].starts|
    ensures states[i].starts[k] >= states[i].starts[k - 1] + cfg.timeout + cfg.delay
  {
    RunInv(states, events, i, cfg);
  }

  /** A reload is recorded: it is scheduled, or requested behind a load that is still going to report back.
      Whether the timer of a scheduled one runs is the matter of the next section. */
  ghost predicate Owed(s: State) {
    || (s.isScheduled && s.timer.Some?)
    || (s.inProgress && s.inFlight && s.nextRequested > 0)
  }

  /** No reload request is dropped: whenever one is made, a reload is recorded, for at most one gap later. */
  lemma RequestsAreOwed(states: seq<State>, events: seq<Event>, i: nat, cfg: Config)
    requires IsRun(states, events, cfg) && i < |events| && events[i].Reload?
    ensures Owed(states[i + 1])
    ensures states[i + 1].nextScheduled <= events[i].now + cfg.Gap() &&
      states[i + 1].nextRequested <= events[i].now + cfg.Gap()
  {
    RunInv(states, events, i, cfg);
    assert Leads(states[i], events[i], states[i + 1], cfg);
  }

  /** It stays recorded until a load starts, whatever else happens. */
  lemma OwedUntilStarted(s: State, e: Event, clock: nat, cfg: Config)
    requires Inv(s, clock, cfg) && Enabled(s, e) && Owed(s)
    ensures Owed(Next(s, e, cfg)) || Next(s, e, cfg).starts == s.starts + [e.Last()]
  {
  }

  /** For when a request is recorded: where one is already recorded, for that; where one load started less than a
      timeout ago that lies in the future, not at all; else for the earliest time the two options admit. */
  lemma RequestedFor(s: State, now: nat, later: nat, cfg: Config)
    ensures var s' := Next(s, Reload(now, later), cfg);
      var recorded := s.isScheduled || s.nextRequested > 0 || s.nextScheduled >= now + cfg.timeout;
      && (recorded ==> s' == s)
      && (!recorded && s.inProgress ==>
        s' == s.(nextRequested := s'.nextRequested) && IsEarliest(s'.nextRequested, s.nextScheduled, now, cfg))
      && (!recorded && !s.inProgress ==>
        s'.isScheduled && s'.nextRequested == 0 && IsEarliest(s'.nextScheduled, s.nextScheduled, now, cfg))
  {
  }

  /** `loader_reschedule` sets every timer for a whole gap from now. */
  lemma RescheduledFor(s: State, now: nat, cfg: Config)
    requires cfg.timeout > 0
    ensures var s' := Next(s, Reschedule(now), cfg);
      && (s.timer.None? ==> s' == s)
      && (s.timer.Some? ==> s'.isScheduled && s'.nextScheduled == now + cfg.timeout + cfg.delay)
      && (s.timer.Some? ==> s'.timer == Some(Due(s'.nextScheduled)))
  {
  }

  // ---------------------------------------------------------------- when the timer does not start

  predicate Idling(s: State) {
    !s.isScheduled && s.nextRequested == 0 && !s.inProgress
  }

  /** A request that schedules a load arms its timer for the scheduled time exactly if the second clock read
      still lies before that time. */
  lemma ReloadArms(s: State, now: nat, later: nat, clock: nat, cfg: Config)
    requires Inv(s, clock, cfg) && Idling(s) && clock <= now <= later && Fits(later, cfg)
    ensures var s' := Next(s, Reload(now, later), cfg);
      && s'.isScheduled && s'.nextScheduled == NextTime(s.nextScheduled, now, cfg)
      && (s'.timer == Some(Due(s'.nextScheduled)) <==> later < NextTime(s.nextScheduled, now, cfg))
      && (now == later ==> (s'.timer == Some(Idle) <==> cfg.delay == 0 && now >= s.nextScheduled + cfg.timeout))
  {
    Armed(NextTime(s.nextScheduled, now, cfg), later);
  }

  /** Likewise for a request that waited for a load to finish. */
  lemma CallbackArms(s: State, now: nat, later: nat, clock: nat, cfg: Config)
    requires Inv(s, clock, cfg) && s.nextRequested > now && clock <= now <= later && Fits(later, cfg)
    ensures var s' := Next(s, Callback(now, later), cfg);
      && s'.isScheduled && s'.nextScheduled == s.nextRequested
      && (s'.timer == Some(Due(s'.nextScheduled)) <==> later < s.nextRequested)
  {
    Armed(s.nextRequested, later);
  }

  /** A scheduled reload has a timer that runs up to the scheduled time. */
  predicate Running(s: State) {
    s.isScheduled ==> s.timer == Some(Due(s.nextScheduled))
  }

  /** A scheduled reload has a timer that does not run, or is not due before the end of the clock. */
  predicate Stranded(s: State) {
    && s.isScheduled && s.nextRequested == 0
    && s.timer.Some? && (s.timer.value.Idle? || s.timer.value.at >= U64)
  }

  lemma NotRunning(s: State, clock: nat, cfg: Config)
    requires Inv(s, clock, cfg) && Fits(clock, cfg)
    ensures !Running(s) <==> Stranded(s)
  {
  }

  /** If the event sets a timer from the difference of the scheduled time and the clock, the clock has not come
      to that time. */
  predicate InTimeAt(s: State, e: Event, cfg: Config) {
    match e
    case Reload(now, later) =>
      Idling(s) && s.nextScheduled < now + cfg.timeout ==> later < NextTime(s.nextScheduled, now, cfg)
    case Callback(now, later) => s.nextRequested > now ==> later < s.nextRequested
    case TimerFires(_) => true
    case Reschedule(_) => true
    case LoadDirectly(_) => true
  }

  lemma RunningStep(s: State, e: Event, clock: nat, cfg: Config)
    requires Inv(s, clock, cfg) && Enabled(s, e) && Fits(e.Last(), cfg) && clock <= e.now
    ensures Running(Next(s, e, cfg)) <==> e.Reschedule? || (Running(s) && InTimeAt(s, e, cfg))
  {
    match e
    case Reload(now, later) =>
      if Idling(s) { ReloadArms(s, now, later, clock, cfg); }
    case Callback(now, later) =>
      if s.nextRequested > now { CallbackArms(s, now, later, clock, cfg); }
    case TimerFires(_) =>
    case Reschedule(_) =>
    case LoadDirectly(_) =>
  }

  /** Every timer set before step `n` was set in time, or all timers have been set anew since. */
  ghost predicate InTime(states: seq<State>, events: seq<Event>, n: nat, cfg: Config)
    requires |states| == |events| + 1 && n <= |events|
  {
    forall i :: 0 <= i < n ==> InTimeAt(states[i], events[i], cfg) || Rescheduled(events, i, n)
  }

  ghost predicate Rescheduled(events: seq<Event>, i: nat, n: nat)
    requires n <= |events|
  {
    exists j :: i < j < n && events[j].Reschedule?
  }

  lemma InTimeStep(states: seq<State>, events: seq<Event>, n: nat, cfg: Config)
    requires |states| == |events| + 1 && 0 < n <= |events|
    ensures InTime(states, events, n, cfg) <==>
      events[n - 1].Reschedule? || (InTime(states, events, n - 1, cfg) && InTimeAt(states[n - 1], events[n - 1], cfg))
  {
    forall i | 0 <= i < n
      ensures Rescheduled(events, i, n) <==>
        (i < n - 1 && events[n - 1].Reschedule?) || Rescheduled(events, i, n - 1)
    {
    }
  }

  /** In every run, for every configuration: a scheduled reload has a running timer exactly if every timer was
      set before the clock had come to the scheduled time, or `loader_reschedule` has set it anew. */
  lemma {:induction false} RunningExactly(states: seq<State>, events: seq<Event>, n: nat, cfg: Config)
    requires IsRun(states, events, cfg) && n <= |events|
    ensures Running(states[n]) <==> InTime(states, events, n, cfg)
    ensures !Running(states[n]) <==> Stranded(states[n])
  {
    if n > 0 {
      RunningExactly(states, events, n - 1, cfg);
      RunInv(states, events, n - 1, cfg);
      assert Leads(states[n - 1], events[n - 1], states[n - 1 + 1], cfg);
      RunningStep(states[n - 1], events[n - 1], ClockAt(events, n - 1), cfg);
      InTimeStep(states, events, n, cfg);
      RunInv(states, events, n, cfg);
      NotRunning(states[n], ClockAt(events, n), cfg);
    }
  }

  /** So timers run all along exactly if each of them was set in time. */
  lemma AlwaysRunningExactly(states: seq<State>, events: seq<Event>, n: nat, cfg: Config)
    requires IsRun(states, events, cfg) && n <= |events|
    ensures (forall i :: 0 <= i <= n ==> Running(states[i])) <==>
      forall i :: 0 <= i < n ==> InTimeAt(states[i], events[i], cfg)
  {
    if forall i :: 0 <= i < n ==> InTimeAt(states[i], events[i], cfg) {
      forall i | 0 <= i <= n
        ensures Running(states[i])
      {
        RunningExactly(states, events, i, cfg);
      }
    } else {
      var i :| 0 <= i < n && !InTimeAt(states[i], events[i], cfg);
      RunInv(states, events, i, cfg);
      assert Leads(states[i], events[i], states[i + 1], cfg);
      RunningStep(states[i], events[i], ClockAt(events, i), cfg);
    }
  }

  /** Both clock reads of every handler fall into one millisecond. */
  ghost predicate Prompt(events: seq<Event>) {
    forall i :: 0 <= i < |events| ==> events[i].Last() == events[i].now
  }

  ghost predicate AlwaysRunning(cfg: Config) {
    forall states, events, i: nat :: IsRun(states, events, cfg) && Prompt(events) && i <= |events| ==>
      Running(states[i])
  }

  /** If both reads always agree, every timer is set in time exactly if `inotify_delay` is not zero, although
      the option accepts zero. */
  lemma DelayMustBePositive(cfg: Config)
    requires Fits(cfg.timeout, cfg)
    ensures AlwaysRunning(cfg) <==> cfg.delay > 0
  {
    if cfg.delay > 0 {
      forall states, events, i: nat | IsRun(states, events, cfg) && Prompt(events) && i <= |events|
        ensures Running(states[i])
      {
        forall j | 0 <= j < i
          ensures InTimeAt(states[j], events[j], cfg)
        {
        }
        RunningExactly(states, events, i, cfg);
      }
    } else {
      var e := Reload(cfg.timeout, cfg.timeout);
      var states := [INIT, Next(INIT, e, cfg)];
      assert Leads(states[0], e, states[1], cfg);
      assert IsRun(states, [e], cfg) && Prompt([e]) && !Running(states[1]);
    }
  }

  /** The two reads are never more than a millisecond apart. */
  ghost predicate OneTick(events: seq<Event>) {
    forall i :: 0 <= i < |events| ==> events[i].Last() <= events[i].now + 1
  }

  /** But a single tick of the clock between two reads is enough to strand a directory, whatever the options: a
      load that was requested again reports back just before the requested time, which passes before the timer is
      set. */
  lemma OneTickStrands(cfg: Config) returns (states: seq<State>, events: seq<Event>)
    requires Fits(2 * cfg.Gap(), cfg)
    ensures IsRun(states, events, cfg) && OneTick(events) && Stranded(states[|events|])
  {
    var t, d := cfg.timeout, cfg.delay;
    var request := Reload(t, t);
    var s1 := Next(INIT, request, cfg);
    if d == 0 {
      states, events := [INIT, s1], [request];
      assert Leads(states[0], events[0], states[1], cfg);
    } else {
      var fires, again := TimerFires(t + d), Reload(t + d, t + d);
      var done := Callback(2 * (t + d) - 1, 2 * (t + d));
      var s2 := Next(s1, fires, cfg);
      var s3 := Next(s2, again, cfg);
      var s4 := Next(s3, done, cfg);
      states, events := [INIT, s1, s2, s3, s4], [request, fires, again, done];
      WrapsForward(t + d, t);
      assert Leads(INIT, request, s1, cfg) && Leads(s1, fires, s2, cfg) && Leads(s2, again, s3, cfg);
      assert Leads(s3, done, s4, cfg);
    }
  }

  // ---------------------------------------------------------------- every request is served, or stranded

  /** A load is going to start, at time `limit` at the latest or when the load it waits for reports back: a timer
      is running, or the request waits for a load that is in flight. */
  ghost predicate Coming(s: State, limit: nat) {
    || (s.timer.Some? && s.timer.value.Due? && s.timer.value.at <= limit)
    || (s.inProgress && s.inFlight && 0 < s.nextRequested <= limit)
  }

  /** A reload is recorded for a time up to `limit`. */
  ghost predicate OwedBy(s: State, limit: nat) {
    Owed(s) && (s.isScheduled ==> s.nextScheduled <= limit) && s.nextRequested <= limit
  }

  lemma ComingExactly(s: State, clock: nat, limit: nat, cfg: Config)
    requires Inv(s, clock, cfg) && OwedBy(s, limit) && limit < U64
    ensures Coming(s, limit) <==> Running(s)
  {
  }

  /** What a request leaves behind is a running timer or a load to wait for, exactly if its timer was set in time
      and no timer before it has stranded the directory. */
  lemma RequestsCome(states: seq<State>, events: seq<Event>, i: nat, cfg: Config)
    requires IsRun(states, events, cfg) && i < |events| && events[i].Reload?
    ensures Coming(states[i + 1], events[i].now + cfg.Gap()) <==> InTime(states, events, i + 1, cfg)
    ensures !Coming(states[i + 1], events[i].now + cfg.Gap()) <==> Stranded(states[i + 1])
  {
    assert Leads(states[i], events[i], states[i + 1], cfg);
    RequestsAreOwed(states, events, i, cfg);
    RunInv(states, events, i + 1, cfg);
    ComingExactly(states[i + 1], ClockAt(events, i + 1), events[i].now + cfg.Gap(), cfg);
    RunningExactly(states, events, i + 1, cfg);
  }

  /** The time from which the gap of request `i` counts after `k` events: that of the request, or of the last
      `loader_reschedule` since. */
  function CountsFrom(events: seq<Event>, i: nat, k: nat): nat
    requires i < k <= |events|
  {
    if k == i + 1 then events[i].now
    else if events[k - 1].Reschedule? then events[k - 1].now
    else CountsFrom(events, i, k - 1)
  }

  lemma OwedStep(s: State, e: Event, clock: nat, limit: nat, cfg: Config)
    requires Inv(s, clock, cfg) && Enabled(s, e) && OwedBy(s, limit) && clock <= e.now
    ensures |Next(s, e, cfg).starts| == |s.starts| ==>
      OwedBy(Next(s, e, cfg), if e.Reschedule? then e.now + cfg.Gap() else limit)
  {
  }

  lemma {:induction false} OwedInRun(states: seq<State>, events: seq<Event>, i: nat, k: nat, cfg: Config)
    requires IsRun(states, events, cfg) && i < k <= |events| && events[i].Reload?
    ensures CountsFrom(events, i, k) + cfg.Gap() < U64
    ensures |states[k].starts| >= |states[i].starts|
    ensures |states[k].starts| > |states[i].starts| || OwedBy(states[k], CountsFrom(events, i, k) + cfg.Gap())
    decreases k
  {
    if k == i + 1 {
      OwedAtOnce(states, events, i, cfg);
    } else {
      OwedInRun(states, events, i, k - 1, cfg);
      hide OwedBy, Leads;
      OwedOnce(states, events, k - 1, CountsFrom(events, i, k - 1) + cfg.Gap(), cfg);
    }
  }

  lemma OwedAtOnce(states: seq<State>, events: seq<Event>, i: nat, cfg: Config)
    requires IsRun(states, events, cfg) && i < |events| && events[i].Reload?
    ensures events[i].now + cfg.Gap() < U64 && states[i + 1].starts == states[i].starts
    ensures OwedBy(states[i + 1], events[i].now + cfg.Gap())
  {
    assert Leads(states[i], events[i], states[i + 1], cfg);
    RequestsAreOwed(states, events, i, cfg);
  }

  lemma OwedOnce(states: seq<State>, events: seq<Event>, j: nat, limit: nat, cfg: Config)
    requires IsRun(states, events, cfg) && j < |events|
    ensures events[j].now + cfg.Gap() < U64 && |states[j + 1].starts| >= |states[j].starts|
    ensures OwedBy(states[j], limit) && |states[j + 1].starts| == |states[j].starts| ==>
      OwedBy(states[j + 1], if events[j].Reschedule? then events[j].now + cfg.Gap() else limit)
  {
    assert Leads(states[j], events[j], states[j + 1], cfg);
    RunInv(states, events, j, cfg);
    hide IsRun;
    StartsStay(states[j], events[j], cfg);
    if OwedBy(states[j], limit) { OwedStep(states[j], events[j], ClockAt(events, j), limit, cfg); }
  }

  lemma StartsStay(s: State, e: Event, cfg: Config)
    ensures |Next(s, e, cfg).starts| >= |s.starts|
  {
  }

  /** In every run, after a request a load has started, or is still coming within a gap, or the directory is
      stranded; and it is stranded exactly if some timer was not set in time. */
  lemma RequestsAreServed(states: seq<State>, events: seq<Event>, i: nat, k: nat, cfg: Config)
    requires IsRun(states, events, cfg) && i < k <= |events| && events[i].Reload?
    ensures |states[k].starts| > |states[i].starts|
      || (Coming(states[k], CountsFrom(events, i, k) + cfg.Gap()) <==> InTime(states, events, k, cfg))
    ensures Stranded(states[k]) <==> !InTime(states, events, k, cfg)
  {
    OwedInRun(states, events, i, k, cfg);
    RunInv(states, events, k, cfg);
    RunningExactly(states, events, k, cfg);
    if OwedBy(states[k], CountsFrom(events, i, k) + cfg.Gap()) {
      ComingExactly(states[k], ClockAt(events, k), CountsFrom(events, i, k) + cfg.Gap(), cfg);
    }
  }

  /** So if timers are set in time, then once the clock is past the gap, no timer is overdue and no load is out, a
      load has started since the request. */
  lemma ServedInTime(states: seq<State>, events: seq<Event>, i: nat, k: nat, cfg: Config)
    requires IsRun(states, events, cfg) && i < k <= |events| && events[i].Reload? && InTime(states, events, k, cfg)
    requires ClockAt(events, k) > CountsFrom(events, i, k) + cfg.Gap() && !states[k].inFlight
    requires states[k].timer.Some? && states[k].timer.value.Due? ==> states[k].timer.value.at >= ClockAt(events, k)
    ensures |states[k].starts| > |states[i].starts|
  {
    RequestsAreServed(states, events, i, k, cfg);
  }

  /** Without a delay, the first request past the timeout leaves nothing coming at all. */
  lemma NothingComes(cfg: Config, now: nat, limit: nat)
    requires Fits(now, cfg) && now >= cfg.timeout && cfg.delay == 0
    ensures Owed(Next(INIT, Reload(now, now), cfg)) && !Coming(Next(INIT, Reload(now, now), cfg), limit)
  {
  }

  function After(s: State, events: seq<Event>, cfg: Config): State
    decreases |events|
  {
    if events == [] then s else After(Next(s, events[0], cfg), events[1..], cfg)
  }

  predicate Follows(s: State, events: seq<Event>, cfg: Config)
    decreases |events|
  {
    events == [] || (Enabled(s, events[0]) && Follows(Next(s, events[0], cfg), events[1..], cfg))
  }

  /** A stranded directory stays so, and the loader starts no load of it, until `loader_reschedule`: further
      requests are taken for duplicates. */
  lemma {:induction false} StuckUntilRescheduled(s: State, events: seq<Event>, cfg: Config)
    requires Stranded(s) && Follows(s, events, cfg)
    requires forall i :: 0 <= i < |events| ==> !events[i].Reschedule? && Fits(events[i].Last(), cfg)
    ensures Stranded(After(s, events, cfg))
    ensures After(s, events, cfg).timer == s.timer && After(s, events, cfg).starts == s.starts
    decreases |events|
  {
    if events != [] {
      assert Fits(events[0].Last(), cfg);
      StuckUntilRescheduled(Next(s, events[0], cfg), events[1..], cfg);
    }
  }
}

/** The code of src/loader.c over all loadables. */
module Loader {
  import opened LoaderSpec

  /** `struct loadable_data`. `inFlight` and `starts` record what the rest of the program sees of it. */
  class Loadable {
    var nextScheduled: nat
    var nextRequested: nat
    var isScheduled: bool
    var inProgress: bool
    var isDisowned: bool
    ghost var inFlight: bool
    ghost var starts: seq<nat>
  }

  class LoaderCtx {
    const cfg: Config
    var timers: map<Loadable, Timer>
    ghost var loadables: set<Loadable>

    constructor (cfg: Config)
      ensures Valid() && timers == map[] && loadables == {} && this.cfg == cfg
    {
      this.cfg := cfg;
      timers, loadables := map[], {};
    }

    ghost function View(l: Loadable): State
      reads this, l
    {
      State(l.nextScheduled, l.nextRequested, l.isScheduled, l.inProgress,
            if l in timers then Some(timers[l]) else None, l.inFlight, l.starts)
    }

    /** Of directories still owned by the cache. */
    ghost predicate Valid()
      reads this, loadables
    {
      && timers.Keys <= loadables
      && forall l :: l in loadables ==> !l.isDisowned && (l.isScheduled <==> l in timers)
    }

    /** `l` has moved to `s'`, and no other loadable or timer has changed. */
    twostate predicate Moved(l: Loadable, s': State)
      reads this, l, loadables
    {
      && loadables == old(loadables) && View(l) == s'
      && (forall m :: m in loadables && m != l ==> View(m) == old(View(m)))
    }

    /** A directory enters the cache. */
    method Adopt() returns (l: Loadable)
      requires Valid()
      modifies this
      ensures Valid() && fresh(l) && loadables == old(loadables) + {l} && View(l) == INIT
      ensures forall m :: m in old(loadables) ==> View(m) == old(View(m))
    {
      l := new Loadable;
      l.nextScheduled, l.nextRequested, l.isScheduled, l.inProgress, l.isDisowned := 0, 0, false, false, false;
      l.inFlight, l.starts := false, [];
      loadables := loadables + {l};
    }

    /** `load`; the asynchronous load itself is recorded. */
    method StartLoad(l: Loadable, now: nat)
      requires l in loadables
      modifies l
      ensures l.isDisowned == old(l.isDisowned)
      ensures Moved(l, Load(old(View(l)), now))
    {
      l.inFlight := true;
      l.starts := l.starts + [now];
      l.nextScheduled := now;
      l.nextRequested := 0;
      l.inProgress := true;
    }

    /** `reschedule`. */
    method SetTimer(l: Loadable, time: nat, delay: nat, now: nat)
      requires l in loadables
      modifies this`timers, l
      ensures l.isDisowned == old(l.isDisowned) && timers == old(timers)[l := Again(delay, now)]
      ensures Moved(l, Rearm(old(View(l)), time, Again(delay, now)))
    {
      timers := timers[l := Again(delay, now)];
      l.nextScheduled := time;
      l.nextRequested := 0;
      l.isScheduled := true;
    }

    /** `schedule`; its assertion never fails. */
    method ScheduleLoad(l: Loadable, time: nat, later: nat)
      requires Valid() && l in loadables
      modifies this`timers, l
      ensures Valid()
      ensures Moved(l, Schedule(old(View(l)), time, later))
    {
      if l.isScheduled {
        return;
      }
      assert l !in timers;
      SetTimer(l, time, (time - later) % U64, later);
    }

    /** `load_timer_cb`. */
    method LoadTimerCb(l: Loadable, now: nat)
      requires Valid() && l in loadables && Enabled(View(l), TimerFires(now))
      modifies this`timers, l
      ensures Valid()
      ensures Moved(l, Next(old(View(l)), TimerFires(now), cfg))
    {
      l.isScheduled := false;
      StartLoad(l, now);
      timers := timers - {l};
    }

    /** `loader_callback`. */
    method LoaderCallback(l: Loadable, now: nat, later: nat)
      requires Valid() && l in loadables && Enabled(View(l), Callback(now, later))
      modifies this`timers, l
      ensures Valid()
      ensures Moved(l, Next(old(View(l)), Callback(now, later), cfg))
    {
      l.inFlight := false;
      l.inProgress := false;
      if l.nextRequested > 0 {
        if l.nextRequested <= now {
          StartLoad(l, later);
        } else {
          ScheduleLoad(l, l.nextRequested, later);
        }
      }
    }

    /** `loader_reload`. */
    method LoaderReload(l: Loadable, now: nat, later: nat)
      requires Valid() && l in loadables && now <= later
      modifies this`timers, l
      ensures Valid()
      ensures Moved(l, Next(old(View(l)), Reload(now, later), cfg))
      ensures !old(l.isScheduled || l.nextRequested > 0 || l.nextScheduled >= now + cfg.timeout) ==>
        IsEarliest(if old(l.inProgress) then l.nextRequested else l.nextScheduled, old(l.nextScheduled), now, cfg)
    {
      if l.isScheduled || l.nextRequested > 0 {
        return;
      }
      var latest := l.nextScheduled;
      if latest >= now + cfg.timeout {
        return;
      }
      var next: nat := if now < latest + cfg.timeout then latest + cfg.timeout + cfg.delay else now + cfg.delay;
      if l.inProgress {
        l.nextRequested := next;
      } else {
        ScheduleLoad(l, next, later);
      }
    }

    /** `loader_dir_reload`. */
    method LoaderDirReload(l: Loadable, now: nat, later: nat)
      requires Valid() && l in loadables && now <= later
      modifies this`timers, l
      ensures Valid()
      ensures Moved(l, Next(old(View(l)), Reload(now, later), cfg))
      ensures !old(l.isScheduled || l.nextRequested > 0 || l.nextScheduled >= now + cfg.timeout) ==>
        IsEarliest(if old(l.inProgress) then l.nextRequested else l.nextScheduled, old(l.nextScheduled), now, cfg)
    {
      if l.isDisowned || l.isScheduled || l.nextRequested > 0 {
        return;
      }
      LoaderReload(l, now, later);
    }

    /** `async_dir_load` called past the loader. */
    method LoadDir(l: Loadable, now: nat)
      requires Valid() && l in loadables
      modifies l
      ensures Valid()
      ensures Moved(l, Next(old(View(l)), LoadDirectly(now), cfg))
    {
      l.inFlight := true;
    }

    function Rearmed(s: State, now: nat): (s': State)
      ensures s' == Next(s, Reschedule(now), cfg)
    {
      if s.timer.Some? then Rearm(s, now + cfg.Gap(), Again(cfg.Gap(), now)) else s
    }

    /** One round of `loader_reschedule`. */
    method RearmOne(l: Loadable, now: nat)
      requires Valid() && l in timers
      modifies this`timers, l
      ensures Valid() && timers.Keys == old(timers).Keys
      ensures Moved(l, Rearmed(old(View(l)), now))
    {
      SetTimer(l, now + cfg.Gap(), cfg.Gap(), now);
    }

    /** `loader_reschedule`: every loadable moves, those without a timer by nothing. */
    method LoaderReschedule(now: nat)
      requires Valid()
      modifies this`timers, loadables
      ensures Valid() && loadables == old(loadables)
      ensures forall l :: l in loadables ==> View(l) == Next(old(View(l)), Reschedule(now), cfg)
    {
      assert forall l :: l in loadables && l !in timers ==> Rearmed(View(l), now) == View(l);
      hide Next, Again, Rearm, Rearmed;
      var todo := timers.Keys;
      while todo != {}
        invariant Valid() && loadables == old(loadables) && todo <= old(timers).Keys && timers.Keys == old(timers).Keys
        invariant forall l :: l in loadables ==>
          View(l) == if l in todo then old(View(l)) else Rearmed(old(View(l)), now)
        decreases |todo|
      {
        var l :| l in todo;
        RearmOne(l, now);
        todo := todo - {l};
      }
    }
  }
}
