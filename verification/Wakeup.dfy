/**
 * The timer thread: registrations and the worker share a heap under one lock; the worker
 * parks on a condition variable until the nearest deadline. Modelled as a state machine
 * over lock, park, notify, pop and send steps, with time passing in between.
 */
module Wakeup {
  import opened Bytes

  /** A registration. `ticket` numbers registrations in order, to tell equal ones apart. */
  datatype Timer = Timer(expiry: nat, convo: bytes, ticket: nat)

  datatype Worker =
    | Unlocked                                // about to take the lock
    | Locked                                  // holds the lock, at the top of the loop
    | Checked                                 // holds the lock, has seen the service running
    | Timing(readAt: nat, target: nat)        // read the clock under the lock, about to park
    | ParkedForever                           // waiting without a timeout, lock released
    | ParkedUntil(wakeAt: nat, lag: nat)      // waiting with a timeout; `lag` after reading the clock
    | Sending(timer: Timer, tickets: nat)     // popped when `tickets` timers had been registered
    | Stopped

  datatype Emission = Emission(timer: Timer, at: nat, tickets: nat)

  datatype State = State(
    now: nat,
    running: bool,
    pending: multiset<Timer>,
    worker: Worker,
    registered: multiset<Timer>,
    tickets: nat,
    emitted: seq<Emission>,
    lost: multiset<Timer>
  )

  const INIT := State(0, true, multiset{}, Unlocked, multiset{}, 0, [], multiset{})

  datatype Step =
    | Elapse(duration: nat)
    | Register(after: nat, convo: bytes)
    | Shutdown
    | TakeLock
    | CheckRunning
    | ParkIdle
    | ReadClock(next: Timer)
    | Park
    | Wake
    | Pop(next: Timer)
    | SendOk
    | SendFails
    | Stop

  predicate Earliest(s: State, next: Timer) {
    next in s.pending && forall t :: t in s.pending ==> next.expiry <= t.expiry
  }

  predicate Parked(w: Worker) { w.ParkedForever? || w.ParkedUntil? }

  predicate LockFree(w: Worker) { !w.Locked? && !w.Checked? && !w.Timing? }

  /** When a step can be taken. A wait may end early, by notification or spuriously. */
  predicate Enabled(s: State, step: Step) {
    match step
    case Elapse(_) => true
    case Register(_, _) => LockFree(s.worker)
    case Shutdown => true
    case TakeLock => s.worker.Unlocked?
    case CheckRunning => s.worker.Locked? && s.running
    case Stop => s.worker.Locked? && !s.running
    case ParkIdle => s.worker.Checked? && s.pending == multiset{}
    case ReadClock(next) => s.worker.Checked? && Earliest(s, next) && next.expiry > s.now
    case Pop(next) => s.worker.Checked? && Earliest(s, next) && next.expiry <= s.now
    case Park => s.worker.Timing? && s.worker.readAt <= s.now
    case Wake => Parked(s.worker)
    case SendOk => s.worker.Sending?
    case SendFails => s.worker.Sending?
  }

  function Notified(w: Worker): Worker { if Parked(w) then Unlocked else w }

  function Apply(s: State, step: Step): State
    requires Enabled(s, step)
  {
    match step
    case Elapse(d) => s.(now := s.now + d)
    case Register(after, convo) =>
      var t := Timer(s.now + after, convo, s.tickets);
      s.(pending := s.pending + multiset{t}, registered := s.registered + multiset{t},
         tickets := s.tickets + 1, worker := Notified(s.worker))
    case Shutdown => s.(running := false, worker := Notified(s.worker))
    case TakeLock => s.(worker := Locked)
    case CheckRunning => s.(worker := Checked)
    case Stop => s.(worker := Stopped)
    case ParkIdle => s.(worker := ParkedForever)
    case ReadClock(next) => s.(worker := Timing(s.now, next.expiry))
    case Park =>
      var lag := s.now - s.worker.readAt;
      s.(worker := ParkedUntil(s.worker.target + lag, lag))
    case Wake => s.(worker := Unlocked)
    case Pop(next) => s.(pending := s.pending - multiset{next}, worker := Sending(next, s.tickets))
    case SendOk =>
      s.(emitted := s.emitted + [Emission(s.worker.timer, s.now, s.worker.tickets)], worker := Unlocked)
    case SendFails => s.(lost := s.lost + multiset{s.worker.timer}, worker := Stopped)
  }

  /** The state after `steps` from `s`, when each could be taken in turn. */
  function RunFrom(s: State, steps: seq<Step>): Option<State> {
    if |steps| == 0 then Some(s) else
    match RunFrom(s, steps[..|steps| - 1])
    case None => None
    case Some(t) => if Enabled(t, steps[|steps| - 1]) then Some(Apply(t, steps[|steps| - 1])) else None
  }

  function Exec(steps: seq<Step>): Option<State> { RunFrom(INIT, steps) }

  // ----- What every reachable state satisfies -----

  function Timers(es: seq<Emission>): multiset<Timer> {
    if |es| == 0 then multiset{} else Timers(es[..|es| - 1]) + multiset{es[|es| - 1].timer}
  }

  function InFlight(w: Worker): multiset<Timer> {
    if w.Sending? then multiset{w.timer} else multiset{}
  }

  ghost predicate Balanced(all: multiset<Timer>, p: multiset<Timer>, f: multiset<Timer>,
                           e: multiset<Timer>, l: multiset<Timer>)
  {
    all == p + f + e + l
  }

  /** Nothing registered is dropped or doubled, except one timer when the receiver is gone. */
  ghost predicate Conserved(s: State) {
    && Balanced(s.registered, s.pending, InFlight(s.worker), Timers(s.emitted), s.lost)
    && |s.lost| <= (if s.worker.Stopped? then 1 else 0)
  }

  /** Nothing is taken or emitted before its expiry. */
  ghost predicate NeverEarly(s: State) {
    && (s.worker.Sending? ==> s.worker.timer.expiry <= s.now)
    && (forall i :: 0 <= i < |s.emitted| ==> s.emitted[i].timer.expiry <= s.emitted[i].at <= s.now)
  }

  /** A parked worker that has not been notified covers every pending deadline, up to the lag. */
  ghost predicate Covered(s: State) {
    && (s.worker.Timing? ==>
          && s.worker.readAt <= s.now
          && (forall t :: t in s.pending ==> s.worker.target <= t.expiry))
    && (s.worker.ParkedForever? ==> s.pending == multiset{})
    && (s.worker.ParkedUntil? ==> forall t :: t in s.pending ==> s.worker.wakeAt <= t.expiry + s.worker.lag)
  }

  /** A timer emitted after another was due no earlier, or was registered after the other was taken. */
  ghost predicate Overtakes(earlier: Timer, takenAt: nat, later: Timer) {
    earlier.expiry <= later.expiry || later.ticket >= takenAt
  }

  ghost predicate InOrder(s: State) {
    && (forall t :: t in s.pending ==> t.ticket < s.tickets)
    && (forall i :: 0 <= i < |s.emitted| ==> s.emitted[i].tickets <= s.tickets)
    && (forall i, j :: 0 <= i < j < |s.emitted| ==>
          Overtakes(s.emitted[i].timer, s.emitted[i].tickets, s.emitted[j].timer))
    && (forall i, t :: 0 <= i < |s.emitted| && t in s.pending ==>
          Overtakes(s.emitted[i].timer, s.emitted[i].tickets, t))
    && (s.worker.Sending? ==>
          && s.worker.tickets <= s.tickets
          && (forall t :: t in s.pending ==> Overtakes(s.worker.timer, s.worker.tickets, t))
          && (forall i :: 0 <= i < |s.emitted| ==>
                Overtakes(s.emitted[i].timer, s.emitted[i].tickets, s.worker.timer)))
  }

  lemma AddOne(all: multiset<Timer>, p: multiset<Timer>, f: multiset<Timer>, e: multiset<Timer>, l: multiset<Timer>, t: Timer)
    requires Balanced(all, p, f, e, l)
    ensures Balanced(all + multiset{t}, p + multiset{t}, f, e, l)
  {
  }

  lemma TakeOne(all: multiset<Timer>, p: multiset<Timer>, e: multiset<Timer>, l: multiset<Timer>, t: Timer)
    requires t in p && Balanced(all, p, multiset{}, e, l)
    ensures Balanced(all, p - multiset{t}, multiset{t}, e, l)
  {
    assert p - multiset{t} + multiset{t} == p + multiset{};
  }

  lemma SendOne(all: multiset<Timer>, p: multiset<Timer>, e: multiset<Timer>, l: multiset<Timer>, t: Timer)
    requires Balanced(all, p, multiset{t}, e, l)
    ensures Balanced(all, p, multiset{}, e + multiset{t}, l)
    ensures Balanced(all, p, multiset{}, e, l + multiset{t})
  {
  }

  /** Steps that neither register, pop nor send leave every pool alone. */
  predicate Quiet(step: Step) { !step.Register? && !step.Pop? && !step.SendOk? && !step.SendFails? }

  lemma QuietFrame(s: State, step: Step)
    requires Enabled(s, step) && Quiet(step)
    ensures var s' := Apply(s, step);
            && s'.registered == s.registered
            && s'.pending == s.pending
            && s'.emitted == s.emitted
            && s'.lost == s.lost
            && InFlight(s'.worker) == InFlight(s.worker)
            && (s.worker.Stopped? ==> s'.worker.Stopped?)
  {
  }

  lemma SendConserves(s: State, step: Step)
    requires Conserved(s) && Enabled(s, step) && (step.SendOk? || step.SendFails?)
    ensures Conserved(Apply(s, step))
  {
    SendOne(s.registered, s.pending, Timers(s.emitted), s.lost, s.worker.timer);
    if step.SendOk? {
      var sent := Apply(s, step).emitted;
      assert sent[..|sent| - 1] == s.emitted;
    }
  }

  lemma QuietConserves(s: State, step: Step)
    requires Conserved(s) && Enabled(s, step) && Quiet(step)
    ensures Conserved(Apply(s, step))
  {
    QuietFrame(s, step);
  }

  lemma RegisterFrame(s: State, step: Step)
    requires Enabled(s, step) && step.Register?
    ensures var s' := Apply(s, step);
            var t := Timer(s.now + step.after, step.convo, s.tickets);
            && s'.registered == s.registered + multiset{t}
            && s'.pending == s.pending + multiset{t}
            && s'.emitted == s.emitted
            && s'.lost == s.lost
            && s'.worker == Notified(s.worker)
  {
  }

  lemma RegisterConserves(s: State, step: Step)
    requires Conserved(s) && Enabled(s, step) && step.Register?
    ensures Conserved(Apply(s, step))
  {
    AddOne(s.registered, s.pending, InFlight(s.worker), Timers(s.emitted), s.lost,
           Timer(s.now + step.after, step.convo, s.tickets));
    assert InFlight(Notified(s.worker)) == InFlight(s.worker);
    RegisterFrame(s, step);
  }

  lemma PopConserves(s: State, step: Step)
    requires Conserved(s) && Enabled(s, step) && step.Pop?
    ensures Conserved(Apply(s, step))
  {
    TakeOne(s.registered, s.pending, Timers(s.emitted), s.lost, step.next);
  }

  lemma StepConserves(s: State, step: Step)
    requires Conserved(s) && Enabled(s, step)
    ensures Conserved(Apply(s, step))
  {
    if Quiet(step) {
      QuietConserves(s, step);
    } else if step.Register? {
      RegisterConserves(s, step);
    } else if step.Pop? {
      PopConserves(s, step);
    } else {
      SendConserves(s, step);
    }
  }

  lemma StepNeverEarly(s: State, step: Step)
    requires NeverEarly(s) && Enabled(s, step)
    ensures NeverEarly(Apply(s, step))
  {
  }

  lemma StepCovers(s: State, step: Step)
    requires Covered(s) && Enabled(s, step)
    ensures Covered(Apply(s, step))
  {
  }

  lemma QuietKeepsOrder(s: State, step: Step)
    requires InOrder(s) && Enabled(s, step) && Quiet(step)
    ensures InOrder(Apply(s, step))
  {
    QuietFrame(s, step);
  }

  lemma RegisterKeepsOrder(s: State, step: Step)
    requires InOrder(s) && Enabled(s, step) && step.Register?
    ensures InOrder(Apply(s, step))
  {
  }

  lemma PopKeepsOrder(s: State, step: Step)
    requires InOrder(s) && Enabled(s, step) && step.Pop?
    ensures InOrder(Apply(s, step))
  {
  }

  lemma SendKeepsOrder(s: State, step: Step)
    requires InOrder(s) && Enabled(s, step) && (step.SendOk? || step.SendFails?)
    ensures InOrder(Apply(s, step))
  {
  }

  lemma StepKeepsOrder(s: State, step: Step)
    requires InOrder(s) && Enabled(s, step)
    ensures InOrder(Apply(s, step))
  {
    if Quiet(step) {
      QuietKeepsOrder(s, step);
    } else if step.Register? {
      RegisterKeepsOrder(s, step);
    } else if step.Pop? {
      PopKeepsOrder(s, step);
    } else {
      SendKeepsOrder(s, step);
    }
  }

  /** In every interleaving: conservation, no early firing, no oversleeping, fair order. */
  lemma {:induction false} EveryRun(steps: seq<Step>)
    requires Exec(steps).Some?
    ensures var s := Exec(steps).value;
            Conserved(s) && NeverEarly(s) && Covered(s) && InOrder(s)
  {
    if |steps| == 0 {
    } else {
      var before := steps[..|steps| - 1];
      EveryRun(before);
      var s, step := Exec(before).value, steps[|steps| - 1];
      StepConserves(s, step);
      StepNeverEarly(s, step);
      StepCovers(s, step);
      StepKeepsOrder(s, step);
    }
  }

  /** Parking at the instant the clock was read, the worker never sleeps past a pending deadline. */
  lemma NeverOversleeps(steps: seq<Step>, t: Timer)
    requires Exec(steps).Some?
    requires var s := Exec(steps).value; Parked(s.worker) && t in s.pending
    ensures var s := Exec(steps).value;
            s.worker.ParkedUntil? && s.worker.wakeAt - s.worker.lag <= t.expiry
  {
    EveryRun(steps);
  }

  // ----- What is emitted is what was asked for -----

  /** Step `i` registered this timer: its conversation, due the given time after that moment. */
  ghost predicate RegisteredBy(steps: seq<Step>, i: nat, t: Timer) {
    && i < |steps| && steps[i].Register? && Exec(steps[..i]).Some?
    && var s := Exec(steps[..i]).value;
       t == Timer(s.now + steps[i].after, steps[i].convo, s.tickets)
  }

  ghost predicate Asked(steps: seq<Step>, t: Timer) { exists i: nat :: RegisteredBy(steps, i, t) }

  lemma RegisteredByEarlier(steps: seq<Step>, i: nat, t: Timer)
    requires |steps| > 0 && i < |steps| - 1
    ensures RegisteredBy(steps, i, t) <==> RegisteredBy(steps[..|steps| - 1], i, t)
  {
    assert steps[..|steps| - 1][..i] == steps[..i];
  }

  lemma AskedStep(steps: seq<Step>, t: Timer)
    requires |steps| > 0
    ensures Asked(steps, t) <==> Asked(steps[..|steps| - 1], t) || RegisteredBy(steps, |steps| - 1, t)
  {
    hide Exec;
    var before := steps[..|steps| - 1];
    if Asked(steps, t) {
      var i: nat :| RegisteredBy(steps, i, t);
      if i < |steps| - 1 { RegisteredByEarlier(steps, i, t); }
    }
    if Asked(before, t) {
      var i: nat :| RegisteredBy(before, i, t);
      RegisteredByEarlier(steps, i, t);
    }
  }

  /** The registered timers are exactly those some step registered. */
  lemma {:induction false} RegisteredExact(steps: seq<Step>, t: Timer)
    requires Exec(steps).Some?
    ensures t in Exec(steps).value.registered <==> Asked(steps, t)
  {
    hide Asked, Enabled, Apply;
    if |steps| == 0 {
      NothingAsked(steps, t);
    } else {
      RegisteredExact(steps[..|steps| - 1], t);
      RegisteredStep(Exec(steps[..|steps| - 1]).value, steps[|steps| - 1], t);
      AskedStep(steps, t);
    }
  }

  lemma NothingAsked(steps: seq<Step>, t: Timer)
    requires |steps| == 0
    ensures !Asked(steps, t)
  {
  }

  lemma RegisteredStep(s: State, step: Step, t: Timer)
    requires Enabled(s, step)
    ensures t in Apply(s, step).registered <==>
            t in s.registered || (step.Register? && t == Timer(s.now + step.after, step.convo, s.tickets))
  {
  }

  lemma {:induction false} EmittedIsCounted(es: seq<Emission>, j: nat)
    requires j < |es|
    ensures es[j].timer in Timers(es)
  {
    if j == |es| - 1 {
    } else {
      EmittedIsCounted(es[..|es| - 1], j);
    }
  }

  /** Every wakeup answers a registration for its conversation, no sooner than the time asked for. */
  lemma EmittedAsAsked(steps: seq<Step>, j: nat)
    requires Exec(steps).Some? && j < |Exec(steps).value.emitted|
    ensures var e := Exec(steps).value.emitted[j];
            exists i: nat ::
              && RegisteredBy(steps, i, e.timer)
              && e.timer.convo == steps[i].convo && e.at >= Exec(steps[..i]).value.now + steps[i].after
  {
    hide Exec, Timers;
    var s := Exec(steps).value;
    EveryRun(steps);
    EmittedIsCounted(s.emitted, j);
    RegisteredExact(steps, s.emitted[j].timer);
    var i: nat :| RegisteredBy(steps, i, s.emitted[j].timer);
  }

  // ----- Progress -----

  /** Some earliest registration, when there is any. */
  lemma SomeEarliest(pending: multiset<Timer>) returns (next: Timer)
    requires pending != multiset{}
    ensures next in pending && forall t :: t in pending ==> next.expiry <= t.expiry
    decreases |pending|
  {
    next :| next in pending;
    var rest := pending - multiset{next};
    assert pending == rest + multiset{next};
    if rest != multiset{} {
      var other := SomeEarliest(rest);
      if other.expiry < next.expiry { next := other; }
    }
  }

  predicate WorkerStep(step: Step) { !step.Elapse? && !step.Register? && !step.Shutdown? }

  /** The worker is never stuck: until it stops there is always something it can do next. */
  lemma WorkerNeverStuck(steps: seq<Step>)
    requires Exec(steps).Some? && !Exec(steps).value.worker.Stopped?
    ensures exists step :: WorkerStep(step) && Enabled(Exec(steps).value, step)
  {
    var s := Exec(steps).value;
    EveryRun(steps);
    match s.worker
    case Unlocked => assert Enabled(s, TakeLock);
    case Locked => assert Enabled(s, if s.running then CheckRunning else Stop);
    case Checked =>
      if s.pending == multiset{} {
        assert Enabled(s, ParkIdle);
      } else {
        var next := SomeEarliest(s.pending);
        assert Enabled(s, if next.expiry > s.now then ReadClock(next) else Pop(next));
      }
    case Timing(_, _) => assert Enabled(s, Park);
    case ParkedForever => assert Enabled(s, Wake);
    case ParkedUntil(_, _) => assert Enabled(s, Wake);
    case Sending(_, _) => assert Enabled(s, SendOk);
  }

  /** The worker stops only after a shutdown or when the receiver is gone. */
  lemma {:induction false} StopsOnlyWhenTold(steps: seq<Step>)
    requires Exec(steps).Some? && Exec(steps).value.worker.Stopped?
    ensures !Exec(steps).value.running || |Exec(steps).value.lost| > 0
  {
    if |steps| == 0 {
    } else {
      var before := Exec(steps[..|steps| - 1]).value;
      if before.worker.Stopped? {
        StopsOnlyWhenTold(steps[..|steps| - 1]);
      }
    }
  }

  lemma {:induction false} RunCons(s: State, step: Step, rest: seq<Step>)
    requires Enabled(s, step)
    ensures RunFrom(s, [step] + rest) == RunFrom(Apply(s, step), rest)
    decreases |rest|
  {
    hide Enabled, Apply;
    var all := [step] + rest;
    if |rest| == 0 {
      assert all[..0] == [] && all == [step];
      assert RunFrom(s, []) == Some(s);
    } else {
      RunCons(s, step, rest[..|rest| - 1]);
      assert all[..|all| - 1] == [step] + rest[..|rest| - 1];
    }
  }

  ghost predicate Fired(s: State, t: Timer) { exists j :: 0 <= j < |s.emitted| && s.emitted[j].timer == t }

  /** How far the worker is from its next look at the heap. */
  function Distance(w: Worker): nat {
    match w
    case Checked => 0
    case Locked => 1
    case Unlocked => 2
    case ParkedForever => 3
    case ParkedUntil(_, _) => 3
    case Timing(_, _) => 4
    case Sending(_, _) => 5
    case Stopped => 6
  }

  /** The step that brings a due timer nearer to being emitted. */
  function Advance(s: State, next: Timer): Step {
    match s.worker
    case Unlocked => TakeLock
    case Locked => CheckRunning
    case Checked => Pop(next)
    case Timing(_, _) => Park
    case ParkedForever => Wake
    case ParkedUntil(_, _) => Wake
    case Sending(_, _) => SendOk
    case Stopped => Stop
  }

  ghost predicate Ready(s: State, t: Timer) {
    && s.running && !s.worker.Stopped? && Covered(s) && t.expiry <= s.now
    && (t in s.pending || (s.worker.Sending? && s.worker.timer == t))
  }

  lemma AdvanceHelps(s: State, t: Timer, next: Timer)
    requires Ready(s, t) && (s.worker.Checked? ==> Earliest(s, next))
    ensures var step := Advance(s, next);
            && Enabled(s, step) && WorkerStep(step)
            && var s' := Apply(s, step);
               && (Ready(s', t) || Fired(s', t))
               && |s'.pending| <= |s.pending|
               && (|s'.pending| < |s.pending| || Distance(s'.worker) < Distance(s.worker))
  {
    StepCoversIfEnabled(s, Advance(s, next));
    if s.worker.Checked? {
      assert s.pending == (s.pending - multiset{next}) + multiset{next};
    }
    if s.worker.Sending? && s.worker.timer == t {
      var s' := Apply(s, SendOk);
      assert s'.emitted[|s.emitted|].timer == t;
    }
  }

  lemma StepCoversIfEnabled(s: State, step: Step)
    requires Covered(s)
    ensures Enabled(s, step) ==> Covered(Apply(s, step))
  {
    if Enabled(s, step) { StepCovers(s, step); }
  }

  lemma {:induction false} ReadyFires(s: State, t: Timer) returns (steps: seq<Step>)
    requires Ready(s, t)
    ensures (forall i :: 0 <= i < |steps| ==> WorkerStep(steps[i]))
    ensures RunFrom(s, steps).Some? && Fired(RunFrom(s, steps).value, t)
    decreases |s.pending|, Distance(s.worker)
  {
    hide Enabled, Apply, Fired, Covered, Earliest;
    var next := t;
    if s.worker.Checked? {
      next := PendingEarliest(s, t);
    }
    var step := Advance(s, next);
    AdvanceHelps(s, t, next);
    var s' := Apply(s, step);
    var rest := [];
    if Fired(s', t) {
      assert RunFrom(s', rest) == Some(s');
    } else {
      rest := ReadyFires(s', t);
    }
    RunCons(s, step, rest);
    steps := [step] + rest;
  }

  lemma PendingEarliest(s: State, t: Timer) returns (next: Timer)
    requires t in s.pending || s.worker.Checked?
    requires Ready(s, t)
    ensures s.worker.Checked? ==> Earliest(s, next)
  {
    next := t;
    if t in s.pending { next := SomeEarliest(s.pending); }
  }

  /** In every reachable state of a running service, the worker alone can get a due timer emitted. */
  lemma DueTimersFire(steps: seq<Step>, t: Timer) returns (more: seq<Step>)
    requires Exec(steps).Some?
    requires var s := Exec(steps).value; s.running && !s.worker.Stopped? && t in s.pending && t.expiry <= s.now
    ensures (forall i :: 0 <= i < |more| ==> WorkerStep(more[i]))
    ensures RunFrom(Exec(steps).value, more).Some? && Fired(RunFrom(Exec(steps).value, more).value, t)
  {
    EveryRun(steps);
    more := ReadyFires(Exec(steps).value, t);
  }

  // ----- Shutdown -----

  /** Whether the worker can still park after the running flag is cleared now. */
  predicate MayMissShutdown(s: State) {
    || s.worker.Timing?
    || (s.worker.Checked? && forall t :: t in s.pending ==> t.expiry > s.now)
  }

  /** A worker bound to look at the cleared flag before it can park. */
  ghost predicate WillNotice(s: State) {
    && !s.running
    && !Parked(s.worker)
    && !s.worker.Timing?
    && (s.worker.Checked? ==> exists t :: t in s.pending && t.expiry <= s.now)
  }

  lemma StepKeepsNotice(s: State, step: Step)
    requires WillNotice(s) && Enabled(s, step)
    ensures WillNotice(Apply(s, step))
  {
    if s.worker.Checked? {
      var due :| due in s.pending && due.expiry <= s.now;
      if step.Elapse? || step.Shutdown? {
        assert due in Apply(s, step).pending;
      }
    }
  }

  lemma {:induction false} NoticeIsKept(s: State, steps: seq<Step>)
    requires WillNotice(s) && RunFrom(s, steps).Some?
    ensures WillNotice(RunFrom(s, steps).value)
  {
    if |steps| == 0 {
    } else {
      NoticeIsKept(s, steps[..|steps| - 1]);
      StepKeepsNotice(RunFrom(s, steps[..|steps| - 1]).value, steps[|steps| - 1]);
    }
  }

  /** After shutdown the worker can still start a wait, timed or not, exactly from the `MayMiss` states. */
  lemma ShutdownMissedExactly(steps: seq<Step>)
    requires Exec(steps).Some?
    ensures MayMissShutdown(Exec(steps).value) <==>
            exists more :: MissedAfter(Apply(Exec(steps).value, Shutdown), more)
  {
    var s := Exec(steps).value;
    var down := Apply(s, Shutdown);
    EveryRun(steps);
    if MayMissShutdown(s) {
      MissingRun(s);
    } else {
      assert WillNotice(down);
      forall more ensures !MissedAfter(down, more) {
        if RunFrom(down, more).Some? { NoticeIsKept(down, more); }
      }
    }
  }

  ghost predicate MissedAfter(s: State, more: seq<Step>) {
    RunFrom(s, more).Some? && Parked(RunFrom(s, more).value.worker)
  }

  lemma MissingRun(s: State)
    requires MayMissShutdown(s) && Covered(s)
    ensures exists more :: MissedAfter(Apply(s, Shutdown), more)
  {
    var down := Apply(s, Shutdown);
    if s.worker.Timing? {
      assert MissedAfter(down, [Park]);
    } else if s.pending == multiset{} {
      assert MissedAfter(down, [ParkIdle]);
    } else {
      var next := SomeEarliest(s.pending);
      var more := [ReadClock(next), Park];
      assert more[..1] == [ReadClock(next)] && [ReadClock(next)][..0] == [];
      assert RunFrom(down, []) == Some(down);
      assert RunFrom(down, more[..1]) == Some(Apply(down, ReadClock(next)));
      assert MissedAfter(down, more);
    }
  }

  // ----- A wait that nothing ends -----

  /** The worker has seen the service running and has nothing to wait for. */
  predicate AboutToIdle(s: State) { s.worker.Checked? && s.pending == multiset{} }

  ghost predicate HungAfter(s: State, more: seq<Step>) {
    RunFrom(s, more).Some? && RunFrom(s, more).value.worker.ParkedForever?
  }

  ghost predicate CannotHang(s: State) {
    !s.running && !s.worker.ParkedForever? && !AboutToIdle(s)
  }

  lemma {:induction false} NeverHangs(s: State, steps: seq<Step>)
    requires CannotHang(s) && RunFrom(s, steps).Some?
    ensures CannotHang(RunFrom(s, steps).value)
  {
    if |steps| == 0 {
    } else {
      NeverHangs(s, steps[..|steps| - 1]);
    }
  }

  /** After shutdown the worker can end in a wait without timeout exactly if it was about to idle. */
  lemma ShutdownHangsExactly(steps: seq<Step>)
    requires Exec(steps).Some?
    ensures AboutToIdle(Exec(steps).value) <==>
            exists more :: HungAfter(Apply(Exec(steps).value, Shutdown), more)
  {
    var s := Exec(steps).value;
    var down := Apply(s, Shutdown);
    if AboutToIdle(s) {
      assert HungAfter(down, [ParkIdle]);
    } else {
      forall more ensures !HungAfter(down, more) {
        if RunFrom(down, more).Some? { NeverHangs(down, more); }
      }
    }
  }

  /** It does happen: shut down between the check and the wait of an idle worker. */
  lemma ShutdownCanBeMissed()
    ensures Exec([TakeLock, CheckRunning]).Some?
    ensures var s := Exec([TakeLock, CheckRunning]).value;
            && MayMissShutdown(s) && AboutToIdle(s)
            && HungAfter(Apply(s, Shutdown), [ParkIdle]) && !Apply(s, Shutdown).running
  {
    var steps := [TakeLock, CheckRunning];
    assert steps[..1] == [TakeLock] && [TakeLock][..0] == [];
    assert RunFrom(INIT, []) == Some(INIT);
    assert Exec([TakeLock]) == Some(INIT.(worker := Locked));
    assert RunFrom(INIT, steps[..1]) == Exec([TakeLock]);
  }
}
