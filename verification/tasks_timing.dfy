/** Whole-run accounting: scancodes are neither lost nor reordered, and a sleep ends after exactly
    the ticks it asked for. */
module TasksTiming {
  import opened Collections
  import opened Tasks
  import opened TasksSafety

  // ---- Scancodes ---------------------------------------------------------------------------------

  /** What was handed to the key printer, followed by what is queued, is what was accepted. */
  ghost predicate Conserved(s: State) {
    match s.keys.queue
    case None => s.hist.accepted == [] && s.hist.taken == []
    case Some(q) => s.hist.taken + q == s.hist.accepted && |q| <= QUEUE_CAPACITY
  }

  ghost predicate SameScancodes(s: State, s': State) {
    s'.keys.queue == s.keys.queue && s'.hist.accepted == s.hist.accepted && s'.hist.taken == s.hist.taken
  }

  lemma TaskLeavesScancodes(s: State, choice: Choice)
    requires InTask(s.pc) && s.pc.id in s.tasks
    ensures SameScancodes(s, TaskStep(s, choice))
  {
  }

  lemma DecrementLeavesScancodes(s: State)
    requires s.pc.Decrement? || s.pc.WakeSleeper?
    ensures SameScancodes(s, DecrementStep(s))
  {
  }

  lemma OthersLeaveScancodes(s: State, choice: Choice)
    requires !InKey(s.pc) && !s.pc.Poll?
    ensures SameScancodes(s, Internal(s, choice))
  {
    hide TaskStep, DecrementStep, KeyStep, PollStep;
    if InTask(s.pc) && s.pc.id in s.tasks {
      TaskLeavesScancodes(s, choice);
    } else if s.pc.Decrement? || s.pc.WakeSleeper? {
      DecrementLeavesScancodes(s);
    }
  }

  lemma PollConserves(s: State, choice: Choice)
    requires Conserved(s) && s.pc.Poll?
    ensures Conserved(Internal(s, choice))
  {
  }

  lemma KeyConserves(s: State, choice: Choice)
    requires Conserved(s) && InKey(s.pc)
    ensures Conserved(KeyStep(s, choice))
  {
    if s.keys.queue.Some? && s.keys.queue.value != [] {
      var q := s.keys.queue.value;
      assert s.hist.taken + [q[0]] + q[1..] == s.hist.taken + q by { assert q == [q[0]] + q[1..]; }
    }
  }

  lemma ScancodeConserves(s: State, code: Scancode)
    requires Conserved(s)
    ensures Conserved(AddScancode(s, code))
  {
    if s.keys.queue.Some? {
      assert s.hist.taken + s.keys.queue.value + [code] == s.hist.taken + (s.keys.queue.value + [code]);
    }
  }

  lemma NextConserves(s: State, a: Action)
    requires Conserved(s)
    ensures Conserved(Next(s, a))
  {
    match a {
      case Step(choice) =>
        hide KeyStep;
        if s.pc.Poll? {
          PollConserves(s, choice);
        } else if InKey(s.pc) {
          KeyConserves(s, choice);
        } else {
          OthersLeaveScancodes(s, choice);
        }
      case TimerInterrupt =>
        assert SameScancodes(s, RaiseTimer(s));
      case KeyboardInterrupt(code) =>
        ScancodeConserves(s, code);
    }
  }

  lemma {:induction false} RunConserves(s: State, actions: seq<Action>)
    requires Conserved(s)
    ensures Conserved(Run(s, actions))
    decreases |actions|
  {
    hide Conserved, Next;
    if actions != [] {
      NextConserves(s, actions[0]);
      RunConserves(Next(s, actions[0]), actions[1..]);
    }
  }

  lemma {:induction false} BootConserves(kinds: seq<Kind>)
    ensures Conserved(Boot(kinds))
    decreases |kinds|
  {
    if kinds != [] {
      BootConserves(kinds[..|kinds| - 1]);
    }
  }

  /** In every run from boot: nothing lost, nothing reordered, never more than the capacity pending. */
  lemma ScancodesConserved(kinds: seq<Kind>, actions: seq<Action>)
    ensures Conserved(Run(Boot(kinds), actions))
  {
    hide Conserved, Run, Boot;
    BootConserves(kinds);
    RunConserves(Boot(kinds), actions);
  }

  /** A scancode that arrives once the queue exists is dropped exactly if the queue is full. */
  lemma DroppedOnlyWhenFull(s: State, code: Scancode)
    requires Conserved(s) && s.keys.queue.Some? && s.interrupts && !s.pc.Panicked? && !s.pc.Stopped?
    ensures var s' := Next(s, KeyboardInterrupt(code));
            if |s.keys.queue.value| == QUEUE_CAPACITY then s'.hist.accepted == s.hist.accepted && s'.keys.queue == s.keys.queue
            else s'.hist.accepted == s.hist.accepted + [code] && s'.keys.queue == Some(s.keys.queue.value + [code])
  {
  }

  // ---- Ticks -----------------------------------------------------------------------------------------

  function Bit(b: bool): nat { if b then 1 else 0 }

  /** A set flag stands for one interrupt not yet consumed; several interrupts may share it. */
  ghost predicate TicksRaised(s: State) {
    && s.hist.consumed + Bit(s.timer.flag == Some(true)) <= s.hist.raised
    && (s.timer.flag.None? ==> s.hist.raised == 0)
    && forall i :: i in s.hist.sleeps ==> RecordRaised(s, s.hist.sleeps[i])
  }

  ghost predicate RecordRaised(s: State, r: SleepRecord) {
    && r.consumedBefore <= s.hist.consumed && r.raisedBefore <= s.hist.raised
    && s.hist.consumed - r.consumedBefore + Bit(s.timer.flag == Some(true)) <= s.hist.raised - r.raisedBefore + 1
  }

  /** The pass over the sleeps that a consumed tick causes has not reached entry `i` yet. */
  predicate InFlight(pc: Pc, i: SleepId) {
    pc.TimerTake? || ((pc.Decrement? || pc.WakeSleeper?) && i in pc.rest)
  }

  /** How many passes of decrement_all have visited sleep `i` since it was registered. */
  ghost function Passes(s: State, i: SleepId): int
    requires i in s.hist.sleeps
  {
    s.hist.consumed - s.hist.sleeps[i].consumedBefore - Bit(InFlight(s.pc, i))
  }

  ghost predicate CountsDown(s: State, i: SleepId) {
    && i in s.hist.sleeps && i in s.manager.sleepers && 0 <= Passes(s, i)
    && s.manager.sleepers[i].ticks ==
         if Passes(s, i) < s.hist.sleeps[i].period then s.hist.sleeps[i].period - Passes(s, i) else 0
  }

  /** Every sleep counts the passes down; a pass visits each entry once. */
  ghost predicate Countdown(s: State) {
    && (forall i :: i in s.manager.sleepers ==> CountsDown(s, i))
    && (s.pc.Decrement? || s.pc.WakeSleeper? ==> Ascending(s.pc.rest))
    && (s.pc.WakeSleeper? ==> s.pc.sleep !in s.pc.rest && s.pc.sleep in s.manager.sleepers && s.manager.sleepers[s.pc.sleep].ticks == 0)
  }

  ghost predicate Ascending(q: seq<SleepId>) {
    forall i, j :: 0 <= i < j < |q| ==> q[i] < q[j]
  }

  /** The waker of the sleep a task awaits has fired exactly once if its sleeper was queued for it,
      and not at all as long as it is registered. */
  ghost predicate FiredOnce(s: State) {
    forall t :: t in s.tasks && s.tasks[t].awaits.Some? ==> FiredFor(s, t, s.tasks[t].awaits.value)
  }

  ghost predicate FiredFor(s: State, t: TaskId, i: SleepId) {
    && i in s.hist.sleeps && i in s.manager.sleepers
    && (Registered(s, t) ==> s.hist.sleeps[i].fired == 0)
    && (t in s.ready ==> s.hist.sleeps[i].fired == 1 && s.manager.sleepers[i].ticks == 0)
    && (Current(s.pc) == Some(t) ==> s.hist.sleeps[i].fired == Bit(s.manager.sleepers[i].ticks == 0))
  }

  ghost predicate TimingInv(s: State) { TicksRaised(s) && Countdown(s) && FiredOnce(s) }

  /** A step that touches neither sleeps nor ticks. */
  ghost predicate NoTick(s: State, s': State) {
    && s'.manager == s.manager && s'.hist.sleeps == s.hist.sleeps && s'.hist.consumed == s.hist.consumed
    && s'.hist.raised == s.hist.raised && SameAwaits(s, s')
  }

  /** Program points at which no pass over the sleeps is under way. */
  predicate NoPass(pc: Pc) { !pc.TimerTake? && !pc.Decrement? && !pc.WakeSleeper? }

  lemma NoTickKeepsTiming(s: State, s': State)
    requires TimingInv(s) && NoTick(s, s') && NoPass(s.pc) && NoPass(s'.pc)
    requires s'.timer.flag == s.timer.flag || (s.timer.flag.None? && s'.timer.flag == Some(false))
    requires forall t :: IsSleeping(s, t) ==>
               (t in s'.ready ==> t in s.ready) && (Current(s'.pc) == Some(t) ==> Current(s.pc) == Some(t) || t in s.ready)
    requires SleepsOwned(s)
    ensures TimingInv(s')
  {
    forall i | i in s'.manager.sleepers ensures CountsDown(s', i) {
      assert CountsDown(s, i);
    }
    forall t | t in s'.tasks && s'.tasks[t].awaits.Some? ensures FiredFor(s', t, s'.tasks[t].awaits.value) {
      assert FiredFor(s, t, s.tasks[t].awaits.value);
    }
  }

  // ---- Interrupts ------------------------------------------------------------------------------------

  lemma InterruptKeepsTiming(s: State, s': State, woken: Option<TaskId>)
    requires Countdown(s) && FiredOnce(s) && SleepsOwned(s) && InterruptEffect(s, s', woken) && (woken.Some? ==> !IsSleeping(s, woken.value))
    requires s'.hist.sleeps == s.hist.sleeps && s'.hist.consumed == s.hist.consumed
    ensures Countdown(s') && FiredOnce(s')
  {
    forall i | i in s'.manager.sleepers ensures CountsDown(s', i) {
      assert CountsDown(s, i);
    }
    forall t | t in s'.tasks && s'.tasks[t].awaits.Some? ensures FiredFor(s', t, s'.tasks[t].awaits.value) {
      assert FiredFor(s, t, s.tasks[t].awaits.value);
      assert Registered(s', t) == Registered(s, t);
    }
  }

  lemma RaiseKeepsTicks(s: State)
    requires TicksRaised(s)
    ensures TicksRaised(RaiseTimer(s)) && RaiseTimer(s).hist.sleeps == s.hist.sleeps && RaiseTimer(s).hist.consumed == s.hist.consumed
  {
    var s' := RaiseTimer(s);
    forall i | i in s'.hist.sleeps ensures RecordRaised(s', s'.hist.sleeps[i]) {
      assert RecordRaised(s, s.hist.sleeps[i]);
    }
  }

  lemma RaiseKeepsTiming(s: State)
    requires Streams(s) && TimerAwake(s) && SleepsOwned(s) && TimingInv(s) && !s.pc.Panicked?
    ensures RaiseTimer(s).pc.Panicked? || TimingInv(RaiseTimer(s))
  {
    hide RaiseTimer, InterruptEffect, TicksRaised, Countdown, FiredOnce, SleepsOwned;
    if !RaiseTimer(s).pc.Panicked? {
      RaiseKeepsTicks(s);
      RaiseEffect(s);
      InterruptKeepsTiming(s, RaiseTimer(s), if s.timer.flag.Some? then s.timer.waker else None);
    }
  }

  lemma ScancodeKeepsTicks(s: State, code: Scancode)
    requires TicksRaised(s)
    ensures var s' := AddScancode(s, code);
            TicksRaised(s') && s'.hist.sleeps == s.hist.sleeps && s'.hist.consumed == s.hist.consumed
  {
    hide TicksRaised;
    var s' := AddScancode(s, code);
    assert s'.hist == s.hist.(accepted := s'.hist.accepted);
    TicksFrame(s, s');
  }

  lemma ScancodeKeepsTiming(s: State, code: Scancode)
    requires Streams(s) && KeyAwake(s) && SleepsOwned(s) && TimingInv(s) && !s.pc.Panicked?
    ensures AddScancode(s, code).pc.Panicked? || TimingInv(AddScancode(s, code))
  {
    hide AddScancode, InterruptEffect, TicksRaised, Countdown, FiredOnce, SleepsOwned;
    if !AddScancode(s, code).pc.Panicked? {
      ScancodeKeepsTicks(s, code);
      ScancodeEffect(s, code);
      InterruptKeepsTiming(s, AddScancode(s, code),
                           if s.keys.queue.Some? && |s.keys.queue.value| < QUEUE_CAPACITY then s.keys.waker else None);
    }
  }

  // ---- Steps outside a pass ----------------------------------------------------------------------------

  lemma LoopKeepsTiming(s: State)
    requires SleepsOwned(s) && TimingInv(s) && (s.pc.LoopHead? || s.pc.Idle? || s.pc.IdleCheck?)
    ensures TimingInv(Internal(s, Plain))
  {
    hide TimingInv, SleepsOwned;
    NoTickKeepsTiming(s, Internal(s, Plain));
  }

  lemma PopKeepsTiming(s: State)
    requires SleepsOwned(s) && TimingInv(s) && s.pc.PopReady?
    ensures TimingInv(PopStep(s))
  {
    hide TimingInv, SleepsOwned;
    NoTickKeepsTiming(s, PopStep(s));
  }

  lemma PollKeepsTiming(s: State)
    requires Control(s) && SleepsOwned(s) && TimingInv(s) && s.pc.Poll?
    ensures PollStep(s, s.pc.id).pc.Panicked? || TimingInv(PollStep(s, s.pc.id))
  {
    hide TimingInv, SleepsOwned;
    var s' := PollStep(s, s.pc.id);
    assert s'.tasks.Keys == s.tasks.Keys;
    if !s'.pc.Panicked? {
      NoTickKeepsTiming(s, s');
    }
  }

  lemma KeyKeepsTiming(s: State, choice: Choice)
    requires Control(s) && Streams(s) && SleepsOwned(s) && TimingInv(s) && InKey(s.pc)
    ensures TimingInv(KeyStep(s, choice))
  {
    hide TimingInv, SleepsOwned;
    NoTickKeepsTiming(s, KeyStep(s, choice));
  }

  // ---- A pass over the sleeps --------------------------------------------------------------------------

  /** Consuming a tick starts a pass: every entry is still to be visited. */
  ghost predicate TickEffect(s: State, s': State) {
    && s'.manager == s.manager && s'.tasks == s.tasks && s'.ready == s.ready && s'.hist.sleeps == s.hist.sleeps
    && s'.hist.raised == s.hist.raised && Current(s'.pc) == Current(s.pc) && !NoPass(s'.pc) && !s'.pc.WakeSleeper?
    && (forall i :: i in s.manager.sleepers ==> InFlight(s'.pc, i))
    && (s'.pc.Decrement? ==> Ascending(s'.pc.rest))
    && if NoPass(s.pc)
       then s.timer.flag == Some(true) && s'.timer.flag == Some(false) && s'.hist.consumed == s.hist.consumed + 1
       else s.pc.TimerTake? && s'.timer.flag == s.timer.flag && s'.hist.consumed == s.hist.consumed
  }

  lemma TickKeepsTiming(s: State, s': State)
    requires TimingInv(s) && TickEffect(s, s')
    ensures TimingInv(s')
  {
    forall i | i in s'.hist.sleeps ensures RecordRaised(s', s'.hist.sleeps[i]) {
      assert RecordRaised(s, s.hist.sleeps[i]);
    }
    forall i | i in s'.manager.sleepers ensures CountsDown(s', i) {
      assert CountsDown(s, i);
    }
    forall t | t in s'.tasks && s'.tasks[t].awaits.Some? ensures FiredFor(s', t, s'.tasks[t].awaits.value) {
      assert FiredFor(s, t, s.tasks[t].awaits.value);
      assert Registered(s', t) == Registered(s, t);
    }
  }

  /** A pass begins, over all sleeps in ascending order, only with a tick that was consumed for it:
      by this step, or by the step before if the stream's own waker was still to be taken back. */
  ghost predicate OnePassPerTick(s: State, s': State) {
    && s'.hist.consumed == s.hist.consumed + (if s.timer.flag == Some(true) && (s.pc.TimerFirst? || s.pc.TimerSecond?) then 1 else 0)
    && (s'.pc.TimerTake? <==> s.pc.TimerSecond? && s'.hist.consumed > s.hist.consumed)
    && (s'.pc.Decrement? <==> s.pc.TimerTake? || (s.pc.TimerFirst? && s'.hist.consumed > s.hist.consumed))
    && (s'.pc.Decrement? ==> (forall i :: i in s'.pc.rest <==> i in s.manager.sleepers) && Ascends(s'.pc.rest))
  }

  ghost predicate Ascends(ids: seq<SleepId>) {
    forall i, j :: 0 <= i < j < |ids| ==> ids[i] < ids[j]
  }

  lemma TickStartsOnePass(s: State)
    requires SleepsOwned(s)
    requires s.pc.TimerFirst? || s.pc.TimerRegister? || s.pc.TimerSecond? || s.pc.TimerTake?
    ensures OnePassPerTick(s, TimerStep(s))
  {
  }

  lemma TimerKeepsTiming(s: State)
    requires Control(s) && Streams(s) && SleepsOwned(s) && TimingInv(s)
    requires s.pc.TimerFirst? || s.pc.TimerRegister? || s.pc.TimerSecond? || s.pc.TimerTake?
    ensures TimingInv(TimerStep(s))
  {
    hide TimingInv;
    var s' := TimerStep(s);
    if s.pc.TimerTake? || (s.timer.flag == Some(true) && !s.pc.TimerRegister?) {
      TickKeepsTiming(s, s');
    } else {
      NoTickKeepsTiming(s, s');
    }
  }

  /** A decrement visits the first entry left. */
  lemma DecrementCounts(s: State, s': State)
    requires Countdown(s) && DecrementEffect(s, s')
    requires s'.hist.sleeps == s.hist.sleeps && s'.hist.consumed == s.hist.consumed
    ensures Countdown(s')
  {
    forall i | i in s'.manager.sleepers ensures CountsDown(s', i) {
      assert CountsDown(s, i);
      if s.pc.rest != [] {
        assert s.pc.rest == [s.pc.rest[0]] + s.pc.rest[1..];
        FirstNotAgain(s.pc.rest);
      }
    }
    if s.pc.rest != [] {
      FirstNotAgain(s.pc.rest);
    }
  }

  lemma FirstNotAgain(q: seq<SleepId>)
    requires q != [] && Ascending(q)
    ensures q[0] !in q[1..] && Ascending(q[1..])
  {
  }

  lemma DecrementFires(s: State, s': State)
    requires SleepsOwned(s) && Streams(s) && Control(s) && FiredOnce(s) && DecrementEffect(s, s') && s'.hist.sleeps == s.hist.sleeps
    ensures FiredOnce(s')
  {
    forall t | t in s'.tasks && s'.tasks[t].awaits.Some? ensures FiredFor(s', t, s'.tasks[t].awaits.value) {
      assert FiredFor(s, t, s.tasks[t].awaits.value);
      assert Registered(s', t) == Registered(s, t);
    }
  }

  lemma DecrementHistory(s: State)
    requires s.pc.Decrement?
    ensures DecrementStep(s).hist == s.hist && DecrementStep(s).timer == s.timer
  {
  }

  ghost predicate SameStart(r: SleepRecord, r': SleepRecord) {
    r.consumedBefore == r'.consumedBefore && r.raisedBefore == r'.raisedBefore
  }

  lemma TicksFrame(s: State, s': State)
    requires TicksRaised(s) && s'.timer.flag == s.timer.flag && s'.hist.raised == s.hist.raised && s'.hist.consumed == s.hist.consumed
    requires forall i :: i in s'.hist.sleeps ==> i in s.hist.sleeps && SameStart(s'.hist.sleeps[i], s.hist.sleeps[i])
    ensures TicksRaised(s')
  {
    forall i | i in s'.hist.sleeps ensures RecordRaised(s', s'.hist.sleeps[i]) {
      assert RecordRaised(s, s.hist.sleeps[i]);
    }
  }

  lemma DecrementKeepsTiming(s: State)
    requires Control(s) && Streams(s) && SleepsOwned(s) && TimingInv(s) && s.pc.Decrement?
    ensures DecrementStep(s).pc.Panicked? || TimingInv(DecrementStep(s))
  {
    hide DecrementStep, DecrementEffect, TicksRaised, Countdown, FiredOnce, Control, Streams, SleepsOwned;
    if !DecrementStep(s).pc.Panicked? {
      DecrementDoes(s);
      DecrementHistory(s);
      DecrementCounts(s, DecrementStep(s));
      DecrementFires(s, DecrementStep(s));
      TicksFrame(s, DecrementStep(s));
    }
  }

  /** Waking records that the waker fired. */
  ghost predicate WakeHistory(s: State, s': State) {
    && s.pc.WakeSleeper? && s.pc.sleep in s.manager.sleepers
    && s'.timer == s.timer && s'.hist.consumed == s.hist.consumed && s'.hist.raised == s.hist.raised
    && s'.hist.sleeps == if s.manager.sleepers[s.pc.sleep].waker.Some? && s.pc.sleep in s.hist.sleeps
                         then s.hist.sleeps[s.pc.sleep := s.hist.sleeps[s.pc.sleep].(fired := s.hist.sleeps[s.pc.sleep].fired + 1)]
                         else s.hist.sleeps
  }

  lemma WakeRecords(s: State)
    requires s.pc.WakeSleeper? && !DecrementStep(s).pc.Panicked?
    ensures WakeHistory(s, DecrementStep(s))
  {
  }

  lemma WakeCounts(s: State, s': State)
    requires Countdown(s) && WakeEffect(s, s') && WakeHistory(s, s')
    ensures Countdown(s')
  {
    forall i | i in s'.manager.sleepers ensures CountsDown(s', i) {
      assert CountsDown(s, i);
    }
  }

  lemma WakeFires(s: State, s': State)
    requires SleepInv(s) && Streams(s) && Control(s) && FiredOnce(s) && Countdown(s) && WakeEffect(s, s') && WakeHistory(s, s')
    ensures FiredOnce(s')
  {
    hide OneToken, Countdown;
    forall t | t in s'.tasks && s'.tasks[t].awaits.Some? ensures FiredFor(s', t, s'.tasks[t].awaits.value) {
      assert FiredFor(s, t, s.tasks[t].awaits.value);
      WakeToken(s, s', t);
      WakeFiresFor(s, s', t);
    }
  }

  lemma WakeFiresFor(s: State, s': State, t: TaskId)
    requires SleepInv(s) && Control(s) && Streams(s) && Countdown(s) && WakeEffect(s, s') && WakeHistory(s, s') && t in s.tasks && s.tasks[t].awaits.Some?
    requires FiredFor(s, t, s.tasks[t].awaits.value)
    requires Registered(s', t) <==> Registered(s, t) && s.manager.sleepers[s.pc.sleep].waker != Some(t)
    requires s.manager.sleepers[s.pc.sleep].waker == Some(t) ==> Registered(s, t)
    ensures FiredFor(s', t, s.tasks[t].awaits.value)
  {
    assert IsSleeping(s, t) && Tokens(s, t) == 1;
  }

  lemma WakeKeepsTiming(s: State)
    requires Control(s) && Streams(s) && SleepInv(s) && TimingInv(s) && s.pc.WakeSleeper?
    ensures DecrementStep(s).pc.Panicked? || TimingInv(DecrementStep(s))
  {
    hide DecrementStep, WakeEffect, TicksRaised, Countdown, FiredOnce, Control, Streams, SleepInv;
    if !DecrementStep(s).pc.Panicked? {
      WakeDoes(s);
      WakeRecords(s);
      WakeCounts(s, DecrementStep(s));
      WakeFires(s, DecrementStep(s));
      TicksFrame(s, DecrementStep(s));
    }
  }

  // ---- Sleep::new, Sleep::poll and the end of a task ------------------------------------------------

  lemma NewKeepsTicks(s: State, id: TaskId, ms: nat)
    requires TicksRaised(s) && id in s.tasks
    ensures TicksRaised(SleepNew(s, id, ms))
  {
    var s' := SleepNew(s, id, ms);
    forall i | i in s'.hist.sleeps ensures RecordRaised(s', s'.hist.sleeps[i]) {
      assert i in s.hist.sleeps ==> RecordRaised(s, s.hist.sleeps[i]);
    }
  }

  lemma NewCountsDown(s: State, id: TaskId, ms: nat)
    requires SleepsOwned(s) && Countdown(s) && s.pc == Body(id) && id in s.tasks
    ensures Countdown(SleepNew(s, id, ms))
  {
    var s' := SleepNew(s, id, ms);
    forall i | i in s'.manager.sleepers ensures CountsDown(s', i) {
      assert i in s.manager.sleepers ==> CountsDown(s, i);
    }
  }

  lemma NotQueuedWhilePolled(s: State, t: TaskId)
    requires OneToken(s) && IsSleeping(s, t) && Current(s.pc) == Some(t)
    ensures t !in s.ready && !Registered(s, t)
  {
    assert Tokens(s, t) == 1;
    assert t in s.ready ==> multiset(s.ready)[t] > 0;
  }

  lemma NewFires(s: State, id: TaskId, ms: nat)
    requires Control(s) && SleepsOwned(s) && OneToken(s) && FiredOnce(s) && s.pc == Body(id)
    ensures SleepNew(s, id, ms).pc.Panicked? || FiredOnce(SleepNew(s, id, ms))
  {
    hide OneToken;
    var s' := SleepNew(s, id, ms);
    NotQueuedWhilePolled(s, id);
    if !s'.pc.Panicked? {
      forall t | t in s'.tasks && s'.tasks[t].awaits.Some? ensures FiredFor(s', t, s'.tasks[t].awaits.value) {
        if t != id {
          assert FiredFor(s, t, s.tasks[t].awaits.value);
          assert Registered(s', t) == Registered(s, t);
        }
      }
    }
  }

  lemma CheckKeepsTiming(s: State, choice: Choice)
    requires Control(s) && SleepsOwned(s) && TimingInv(s) && s.pc.SleepCheck?
    ensures TaskStep(s, choice).pc.Panicked? || TimingInv(TaskStep(s, choice))
  {
    hide TicksRaised;
    var s' := TaskStep(s, choice);
    if !s'.pc.Panicked? {
      TicksFrame(s, s');
      forall i | i in s'.manager.sleepers ensures CountsDown(s', i) {
        assert CountsDown(s, i);
      }
      forall t | t in s'.tasks && s'.tasks[t].awaits.Some? ensures FiredFor(s', t, s'.tasks[t].awaits.value) {
        assert FiredFor(s, t, s.tasks[t].awaits.value);
        assert Registered(s', t) == Registered(s, t);
      }
    }
  }

  lemma RegisterKeepsTiming(s: State, choice: Choice)
    requires Control(s) && SleepInv(s) && TimingInv(s) && s.pc.SleepRegister?
    ensures TaskStep(s, choice).pc.Panicked? || TimingInv(TaskStep(s, choice))
  {
    hide TicksRaised, OneToken;
    var s' := TaskStep(s, choice);
    NotQueuedWhilePolled(s, s.pc.id);
    if !s'.pc.Panicked? {
      TicksFrame(s, s');
      forall i | i in s'.manager.sleepers ensures CountsDown(s', i) {
        assert CountsDown(s, i);
      }
      forall t | t in s'.tasks && s'.tasks[t].awaits.Some? ensures FiredFor(s', t, s'.tasks[t].awaits.value) {
        assert FiredFor(s, t, s.tasks[t].awaits.value);
        assert t != s.pc.id ==> Registered(s', t) == Registered(s, t);
      }
    }
  }

  lemma FinishKeepsTiming(s: State, choice: Choice)
    requires Control(s) && TimingInv(s) && s.pc.Finish?
    ensures TimingInv(TaskStep(s, choice))
  {
    hide TicksRaised;
    var s' := TaskStep(s, choice);
    TicksFrame(s, s');
    forall i | i in s'.manager.sleepers ensures CountsDown(s', i) {
      assert CountsDown(s, i);
    }
    forall t | t in s'.tasks && s'.tasks[t].awaits.Some? ensures FiredFor(s', t, s'.tasks[t].awaits.value) {
      assert FiredFor(s, t, s.tasks[t].awaits.value);
      assert Registered(s', t) == Registered(s, t);
    }
  }

  lemma TaskKeepsTiming(s: State, choice: Choice)
    requires Control(s) && SleepInv(s) && TimingInv(s) && InTask(s.pc)
    ensures TaskStep(s, choice).pc.Panicked? || TimingInv(TaskStep(s, choice))
  {
    hide SleepsOwned, OneToken, TicksLeft, TicksRaised, Countdown, FiredOnce, SleepNew;
    match s.pc {
      case Body(id) =>
        if choice.SleepFor? {
          NewKeepsTicks(s, id, choice.ms);
          NewCountsDown(s, id, choice.ms);
          NewFires(s, id, choice.ms);
        } else {
          NoTickKeepsTiming(s, TaskStep(s, choice));
        }
      case SleepCheck(_) => CheckKeepsTiming(s, choice);
      case SleepRegister(_) => RegisterKeepsTiming(s, choice);
      case Finish(_) => FinishKeepsTiming(s, choice);
    }
  }

  // ---- All steps, all runs ------------------------------------------------------------------------------

  lemma InternalKeepsTiming(s: State, choice: Choice)
    requires AwakeInv(s) && SleepInv(s) && TimingInv(s)
    ensures Internal(s, choice).pc.Panicked? || TimingInv(Internal(s, choice))
  {
    hide SleepsOwned, OneToken, TicksLeft, Streams, TimerAwake, KeyAwake, TimingInv, PopStep, PollStep, TimerStep, DecrementStep, KeyStep, TaskStep;
    if s.pc.LoopHead? || s.pc.Idle? || s.pc.IdleCheck? {
      LoopKeepsTiming(s);
    } else if s.pc.PopReady? {
      PopKeepsTiming(s);
    } else if s.pc.Poll? {
      PollKeepsTiming(s);
    } else if s.pc.TimerFirst? || s.pc.TimerRegister? || s.pc.TimerSecond? || s.pc.TimerTake? {
      TimerKeepsTiming(s);
    } else if s.pc.Decrement? {
      DecrementKeepsTiming(s);
    } else if s.pc.WakeSleeper? {
      WakeKeepsTiming(s);
    } else if InKey(s.pc) {
      KeyKeepsTiming(s, choice);
    } else if InTask(s.pc) {
      TaskKeepsTiming(s, choice);
    }
  }

  /** Everything that holds in every state of every run that has not panicked. */
  ghost predicate FullInv(s: State) { s.pc.Panicked? || (AwakeInv(s) && SleepInv(s) && TimingInv(s)) }

  lemma NextKeepsTiming(s: State, a: Action)
    requires FullInv(s)
    ensures FullInv(Next(s, a))
  {
    hide SleepsOwned, OneToken, TicksLeft, Control, Streams, TimerAwake, KeyAwake, TimingInv, Internal, RaiseTimer, AddScancode;
    NextKeepsInv(s, a);
    if !s.pc.Panicked? && !s.pc.Stopped? {
      match a {
        case Step(choice) =>
          InternalKeepsTiming(s, choice);
        case TimerInterrupt =>
          if s.interrupts {
            RaiseKeepsTiming(s);
          }
        case KeyboardInterrupt(code) =>
          if s.interrupts {
            ScancodeKeepsTiming(s, code);
          }
      }
    }
  }

  lemma {:induction false} RunKeepsTiming(s: State, actions: seq<Action>)
    requires FullInv(s)
    ensures FullInv(Run(s, actions))
    decreases |actions|
  {
    hide FullInv, Next;
    if actions != [] {
      NextKeepsTiming(s, actions[0]);
      RunKeepsTiming(Next(s, actions[0]), actions[1..]);
    }
  }

  lemma {:induction false} BootHistory(kinds: seq<Kind>)
    ensures Boot(kinds).hist == History(0, 0, [], [], map[])
    decreases |kinds|
  {
    if kinds != [] {
      BootHistory(kinds[..|kinds| - 1]);
    }
  }

  lemma ReachableInv(kinds: seq<Kind>, actions: seq<Action>)
    ensures FullInv(Run(Boot(kinds), actions))
  {
    hide Run, Boot, AwakeInv, SleepInv;
    var s := Boot(kinds);
    BootSpawns(kinds);
    BootHistory(kinds);
    if |kinds| <= 100 {
      SpawnedInv(s, kinds);
    }
    RunKeepsTiming(s, actions);
  }

  /** A task that awaits sleep `i`, between two passes and while it is not itself being polled. */
  ghost predicate Waiting(s: State, t: TaskId, i: SleepId) {
    t in s.tasks && s.tasks[t].awaits == Some(i) && Current(s.pc) != Some(t) && NoPass(s.pc)
  }

  ghost predicate WaitingMeaning(s: State, t: TaskId, i: SleepId) {
    && i in s.hist.sleeps && i in s.manager.sleepers
    && if Passes(s, i) < s.hist.sleeps[i].period
       then Registered(s, t) && t !in s.ready && s.hist.sleeps[i].fired == 0
            && s.manager.sleepers[i].ticks == s.hist.sleeps[i].period - Passes(s, i)
       else t in s.ready && !Registered(s, t) && s.hist.sleeps[i].fired == 1
  }

  /** Sleep timing in every run from boot and under every interleaving: consumed ticks never exceed
      raised ones; a sleeping task is queued at most once; and a task that awaits a sleep of period
      k stays registered with k - n ticks left after n < k passes of decrement_all, and is queued,
      its waker fired exactly once, from the k-th pass on. */
  lemma SleepTiming(kinds: seq<Kind>, actions: seq<Action>)
    ensures var s := Run(Boot(kinds), actions);
            s.pc.Panicked? ||
            (&& s.hist.consumed <= s.hist.raised
             && (forall t :: IsSleeping(s, t) ==> multiset(s.ready)[t] <= 1)
             && (forall t, i :: Waiting(s, t, i) ==> WaitingMeaning(s, t, i)))
  {
    hide Run, Boot;
    var s := Run(Boot(kinds), actions);
    ReachableInv(kinds, actions);
    if !s.pc.Panicked? {
      QueuedAtMostOnce(s);
      forall t, i | Waiting(s, t, i) ensures WaitingMeaning(s, t, i) {
        WaitingOnTime(s, t, i);
      }
    }
  }

  lemma QueuedAtMostOnce(s: State)
    requires OneToken(s)
    ensures forall t :: IsSleeping(s, t) ==> multiset(s.ready)[t] <= 1
  {
    forall t | IsSleeping(s, t) ensures multiset(s.ready)[t] <= 1 {
      assert Tokens(s, t) == 1;
    }
  }

  lemma WaitingOnTime(s: State, t: TaskId, i: SleepId)
    requires AwakeInv(s) && SleepInv(s) && TimingInv(s) && Waiting(s, t, i)
    ensures WaitingMeaning(s, t, i)
  {
    assert FiredFor(s, t, i) && CountsDown(s, i);
    assert IsSleeping(s, t) && Tokens(s, t) == 1;
    assert multiset(s.ready)[t] > 0 <==> t in s.ready;
  }

  /** sleep_for(ms) registers a sleep of max(1, ms / 4) ticks that counts from this moment. */
  lemma SleepStarts(s: State, id: TaskId, ms: nat)
    requires Control(s) && SleepsOwned(s) && s.pc == Body(id)
    ensures var s' := Next(s, Step(SleepFor(ms)));
            var i := s.manager.nextId;
            && s'.tasks[id].awaits == Some(i) && i !in s.manager.sleepers && i in s'.hist.sleeps
            && s'.hist.sleeps[i].period == (if ms / 4 == 0 then 1 else ms / 4)
            && Passes(s', i) == 0 && s'.hist.sleeps[i].raisedBefore == s.hist.raised
            && s'.manager == Manager(s.manager.sleepers[i := Sleeper(s'.hist.sleeps[i].period, None)], i + 1)
  {
  }

  /** A polled sleep is over exactly if its period of passes is, and by then at least one interrupt
      less than the period was raised since it was registered. */
  lemma SleepEnds(kinds: seq<Kind>, actions: seq<Action>)
    ensures var s := Run(Boot(kinds), actions);
            s.pc.SleepCheck? ==>
              && s.pc.id in s.tasks && s.tasks[s.pc.id].awaits.Some?
              && var i := s.tasks[s.pc.id].awaits.value;
                 var s' := Next(s, Step(Plain));
                 && i in s.hist.sleeps && s.pc.id in s'.tasks
                 && (s'.tasks[s.pc.id].awaits.None? <==> s.hist.sleeps[i].period <= Passes(s, i))
                 && (s'.tasks[s.pc.id].awaits.None? ==>
                       s.hist.raised - s.hist.sleeps[i].raisedBefore >= s.hist.sleeps[i].period - 1)
  {
    hide Run, Boot, Streams, TimerAwake, KeyAwake, OneToken, TicksLeft;
    var s := Run(Boot(kinds), actions);
    ReachableInv(kinds, actions);
    if s.pc.SleepCheck? {
      var i := s.tasks[s.pc.id].awaits.value;
      assert CountsDown(s, i) && RecordRaised(s, s.hist.sleeps[i]);
    }
  }
}
