/** No wake-up is lost: what every step and every interrupt keeps, and what it means when the
    processor halts. */
module TasksSafety {
  import opened Collections
  import opened Tasks

  predicate InTimer(pc: Pc) {
    pc.TimerFirst? || pc.TimerRegister? || pc.TimerSecond? || pc.TimerTake? || pc.Decrement? || pc.WakeSleeper?
  }

  predicate InKey(pc: Pc) {
    pc.KeyFirst? || pc.KeyRegister? || pc.KeySecond? || pc.KeyTake? || pc.KeyProcess?
  }

  predicate InTask(pc: Pc) {
    pc.Body? || pc.SleepCheck? || pc.SleepRegister? || pc.Finish?
  }

  /** Who is being polled. */
  function Current(pc: Pc): Option<TaskId> {
    if pc.Poll? || InTimer(pc) || InKey(pc) || InTask(pc) then Some(pc.id) else None
  }

  /** The processor runs the code of the executor task it says it runs. */
  ghost predicate Control(s: State) {
    && (InTimer(s.pc) ==> s.timer.task == Some(s.pc.id))
    && (InKey(s.pc) ==> s.keys.task == Some(s.pc.id))
    && (InTask(s.pc) ==> s.pc.id in s.tasks && s.tasks[s.pc.id].kind.Sleeping?)
    && (s.pc.Body? || s.pc.Finish? ==> s.tasks[s.pc.id].awaits.None?)
    && (s.pc.SleepCheck? || s.pc.SleepRegister? ==> s.tasks[s.pc.id].awaits.Some?)
    && (s.pc.Poll? ==> s.pc.id in s.tasks)
    && (s.interrupts <==> !s.pc.IdleCheck?)
    && (s.pc.Halted? ==> s.ready == [])
  }

  /** A stream task exists as soon as its flag or queue does, and is the only one of its kind that
      ever started. */
  ghost predicate Streams(s: State) {
    && (s.timer.task.Some? <==> s.timer.flag.Some?)
    && (s.timer.task.Some? ==> s.timer.task.value in s.tasks && s.tasks[s.timer.task.value].kind.TimerLoop? && s.tasks[s.timer.task.value].started)
    && (s.keys.task.Some? <==> s.keys.queue.Some?)
    && (s.keys.task.Some? ==> s.keys.task.value in s.tasks && s.tasks[s.keys.task.value].kind.KeyPrinter? && s.tasks[s.keys.task.value].started)
    && (forall t :: t in s.tasks && s.tasks[t].kind.TimerLoop? && s.tasks[t].started ==> s.timer.task == Some(t))
    && (forall t :: t in s.tasks && s.tasks[t].kind.KeyPrinter? && s.tasks[t].started ==> s.keys.task == Some(t))
  }

  /** The timer task is being polled, is queued, or waits registered with the flag clear. */
  ghost predicate TimerAwake(s: State) {
    && (s.timer.waker.Some? ==> s.timer.waker == s.timer.task)
    && (s.timer.task.Some? && Current(s.pc) != s.timer.task ==>
          s.timer.task.value in s.ready || (s.timer.waker == s.timer.task && s.timer.flag == Some(false)))
    && (s.pc.TimerSecond? ==> s.timer.waker == s.timer.task || s.pc.id in s.ready)
    && (forall t :: t in s.tasks && s.tasks[t].kind.TimerLoop? && !s.tasks[t].started ==> t in s.ready || Current(s.pc) == Some(t))
  }

  /** The same for the key printer and its queue. */
  ghost predicate KeyAwake(s: State) {
    && (s.keys.waker.Some? ==> s.keys.waker == s.keys.task)
    && (s.keys.task.Some? && Current(s.pc) != s.keys.task ==>
          s.keys.task.value in s.ready || (s.keys.waker == s.keys.task && s.keys.queue == Some([])))
    && (s.pc.KeySecond? ==> s.keys.waker == s.keys.task || s.pc.id in s.ready)
    && (forall t :: t in s.tasks && s.tasks[t].kind.KeyPrinter? && !s.tasks[t].started ==> t in s.ready || Current(s.pc) == Some(t))
  }

  // ---- Sleeping tasks ------------------------------------------------------------------------------

  predicate Registered(s: State, t: TaskId) {
    t in s.tasks && s.tasks[t].awaits.Some? && s.tasks[t].awaits.value in s.manager.sleepers &&
    s.manager.sleepers[s.tasks[t].awaits.value].waker == Some(t)
  }

  /** How often a task is queued, plus one if its waker is registered, plus one if it is polled. */
  ghost function Tokens(s: State, t: TaskId): nat {
    multiset(s.ready)[t] + (if Registered(s, t) then 1 else 0) + (if Current(s.pc) == Some(t) then 1 else 0)
  }

  predicate IsSleeping(s: State, t: TaskId) { t in s.tasks && s.tasks[t].kind.Sleeping? }

  /** Sleeps belong to the tasks that await them, one each. */
  ghost predicate SleepsOwned(s: State) {
    && (forall t :: t in s.tasks && s.tasks[t].awaits.Some? ==> s.tasks[t].kind.Sleeping? && s.tasks[t].awaits.value in s.manager.sleepers)
    && (forall t, u :: t in s.tasks && u in s.tasks && s.tasks[t].awaits.Some? && s.tasks[t].awaits == s.tasks[u].awaits ==> t == u)
    && (forall i :: i in s.manager.sleepers ==> i < s.manager.nextId)
    && (forall i :: i in s.manager.sleepers && s.manager.sleepers[i].waker.Some? ==>
          s.manager.sleepers[i].waker.value in s.tasks && s.tasks[s.manager.sleepers[i].waker.value].awaits == Some(i))
  }

  /** A sleeping task is in exactly one place: queued once, registered, or being polled. */
  ghost predicate OneToken(s: State) {
    forall t :: IsSleeping(s, t) ==> Tokens(s, t) == 1
  }

  /** decrement_all walks over existing entries; who is registered has ticks left, but for the
      entry just about to be woken. */
  ghost predicate TicksLeft(s: State) {
    && (s.pc.Decrement? || s.pc.WakeSleeper? ==> forall i :: i in s.pc.rest ==> i in s.manager.sleepers)
    && (s.pc.WakeSleeper? ==> s.pc.sleep in s.manager.sleepers)
    && (s.pc.SleepRegister? && s.pc.id in s.tasks && s.tasks[s.pc.id].awaits.Some? ==>
          s.tasks[s.pc.id].awaits.value in s.manager.sleepers && s.manager.sleepers[s.tasks[s.pc.id].awaits.value].ticks > 0)
    && (forall i :: i in s.manager.sleepers && s.manager.sleepers[i].waker.Some? ==>
          s.manager.sleepers[i].ticks > 0 || (s.pc.WakeSleeper? && s.pc.sleep == i))
  }

  ghost predicate AwakeInv(s: State) { Control(s) && Streams(s) && TimerAwake(s) && KeyAwake(s) }

  ghost predicate SleepInv(s: State) { SleepsOwned(s) && OneToken(s) && TicksLeft(s) }

  ghost predicate Inv(s: State) { s.pc.Panicked? || (AwakeInv(s) && SleepInv(s)) }

  // ---- Streams: each kind of step --------------------------------------------------------------------

  lemma RaiseKeepsStreams(s: State)
    requires Control(s) && Streams(s) && s.interrupts
    ensures RaiseTimer(s).pc.Panicked? || (Control(RaiseTimer(s)) && Streams(RaiseTimer(s)))
  {
  }

  lemma RaiseKeepsTimer(s: State)
    requires Control(s) && Streams(s) && TimerAwake(s) && s.interrupts
    ensures RaiseTimer(s).pc.Panicked? || (TimerAwake(RaiseTimer(s)))
  {
  }

  lemma RaiseKeepsKey(s: State)
    requires Control(s) && Streams(s) && KeyAwake(s) && s.interrupts
    ensures RaiseTimer(s).pc.Panicked? || (KeyAwake(RaiseTimer(s)))
  {
  }

  lemma RaiseKeepsAwake(s: State)
    requires AwakeInv(s) && s.interrupts
    ensures RaiseTimer(s).pc.Panicked? || AwakeInv(RaiseTimer(s))
  {
    hide Control, Streams, TimerAwake, KeyAwake;
    RaiseKeepsStreams(s);
    RaiseKeepsTimer(s);
    RaiseKeepsKey(s);
  }

  lemma ScancodeKeepsStreams(s: State, code: Scancode)
    requires Control(s) && Streams(s) && s.interrupts
    ensures AddScancode(s, code).pc.Panicked? || (Control(AddScancode(s, code)) && Streams(AddScancode(s, code)))
  {
  }

  lemma ScancodeKeepsTimer(s: State, code: Scancode)
    requires Control(s) && Streams(s) && TimerAwake(s) && s.interrupts
    ensures AddScancode(s, code).pc.Panicked? || (TimerAwake(AddScancode(s, code)))
  {
  }

  lemma ScancodeKeepsKey(s: State, code: Scancode)
    requires Control(s) && Streams(s) && KeyAwake(s) && s.interrupts
    ensures AddScancode(s, code).pc.Panicked? || (KeyAwake(AddScancode(s, code)))
  {
  }

  lemma ScancodeKeepsAwake(s: State, code: Scancode)
    requires AwakeInv(s) && s.interrupts
    ensures AddScancode(s, code).pc.Panicked? || AwakeInv(AddScancode(s, code))
  {
    hide Control, Streams, TimerAwake, KeyAwake;
    ScancodeKeepsStreams(s, code);
    ScancodeKeepsTimer(s, code);
    ScancodeKeepsKey(s, code);
  }

  lemma LoopKeepsStreams(s: State)
    requires Control(s) && Streams(s) && (s.pc.LoopHead? || s.pc.Idle? || s.pc.IdleCheck?)
    ensures Control(Internal(s, Plain)) && Streams(Internal(s, Plain))
  {
  }

  lemma LoopKeepsTimer(s: State)
    requires Control(s) && Streams(s) && TimerAwake(s) && (s.pc.LoopHead? || s.pc.Idle? || s.pc.IdleCheck?)
    ensures TimerAwake(Internal(s, Plain))
  {
  }

  lemma LoopKeepsKey(s: State)
    requires Control(s) && Streams(s) && KeyAwake(s) && (s.pc.LoopHead? || s.pc.Idle? || s.pc.IdleCheck?)
    ensures KeyAwake(Internal(s, Plain))
  {
  }

  lemma LoopKeepsAwake(s: State)
    requires AwakeInv(s) && (s.pc.LoopHead? || s.pc.Idle? || s.pc.IdleCheck?)
    ensures AwakeInv(Internal(s, Plain))
  {
    hide Control, Streams, TimerAwake, KeyAwake, Internal;
    LoopKeepsStreams(s);
    LoopKeepsTimer(s);
    LoopKeepsKey(s);
  }

  lemma PopKeepsStreams(s: State)
    requires Control(s) && Streams(s) && s.pc.PopReady?
    ensures (Control(PopStep(s)) && Streams(PopStep(s)))
  {
  }

  lemma PopKeepsTimer(s: State)
    requires Control(s) && Streams(s) && TimerAwake(s) && s.pc.PopReady?
    ensures (TimerAwake(PopStep(s)))
  {
  }

  lemma PopKeepsKey(s: State)
    requires Control(s) && Streams(s) && KeyAwake(s) && s.pc.PopReady?
    ensures (KeyAwake(PopStep(s)))
  {
  }

  lemma PopKeepsAwake(s: State)
    requires AwakeInv(s) && s.pc.PopReady?
    ensures AwakeInv(PopStep(s))
  {
    hide Control, Streams, TimerAwake, KeyAwake;
    PopKeepsStreams(s);
    PopKeepsTimer(s);
    PopKeepsKey(s);
  }

  lemma PollKeepsStreams(s: State)
    requires Control(s) && Streams(s) && s.pc.Poll?
    ensures PollStep(s, s.pc.id).pc.Panicked? || (Control(PollStep(s, s.pc.id)) && Streams(PollStep(s, s.pc.id)))
  {
  }

  lemma PollKeepsTimer(s: State)
    requires Control(s) && Streams(s) && TimerAwake(s) && s.pc.Poll?
    ensures PollStep(s, s.pc.id).pc.Panicked? || (TimerAwake(PollStep(s, s.pc.id)))
  {
  }

  lemma PollKeepsKey(s: State)
    requires Control(s) && Streams(s) && KeyAwake(s) && s.pc.Poll?
    ensures PollStep(s, s.pc.id).pc.Panicked? || (KeyAwake(PollStep(s, s.pc.id)))
  {
  }

  lemma PollKeepsAwake(s: State)
    requires AwakeInv(s) && s.pc.Poll?
    ensures PollStep(s, s.pc.id).pc.Panicked? || AwakeInv(PollStep(s, s.pc.id))
  {
    hide Control, Streams, TimerAwake, KeyAwake;
    PollKeepsStreams(s);
    PollKeepsTimer(s);
    PollKeepsKey(s);
  }

  lemma TimerKeepsStreams(s: State)
    requires Control(s) && Streams(s) && (s.pc.TimerFirst? || s.pc.TimerRegister? || s.pc.TimerSecond? || s.pc.TimerTake?)
    ensures (Control(TimerStep(s)) && Streams(TimerStep(s)))
  {
    var b := s.timer.flag.value;
    assert s.timer.flag == if b then Some(true) else Some(false);
  }

  lemma TimerKeepsTimer(s: State)
    requires Control(s) && Streams(s) && TimerAwake(s) && (s.pc.TimerFirst? || s.pc.TimerRegister? || s.pc.TimerSecond? || s.pc.TimerTake?)
    ensures (TimerAwake(TimerStep(s)))
  {
    var b := s.timer.flag.value;
    assert s.timer.flag == if b then Some(true) else Some(false);
  }

  lemma TimerKeepsKey(s: State)
    requires Control(s) && Streams(s) && KeyAwake(s) && (s.pc.TimerFirst? || s.pc.TimerRegister? || s.pc.TimerSecond? || s.pc.TimerTake?)
    ensures (KeyAwake(TimerStep(s)))
  {
    var b := s.timer.flag.value;
    assert s.timer.flag == if b then Some(true) else Some(false);
  }

  lemma TimerKeepsAwake(s: State)
    requires AwakeInv(s) && (s.pc.TimerFirst? || s.pc.TimerRegister? || s.pc.TimerSecond? || s.pc.TimerTake?)
    ensures AwakeInv(TimerStep(s))
  {
    hide Control, Streams, TimerAwake, KeyAwake;
    TimerKeepsStreams(s);
    TimerKeepsTimer(s);
    TimerKeepsKey(s);
  }

  lemma DecrementKeepsStreams(s: State)
    requires Control(s) && Streams(s) && (s.pc.Decrement? || s.pc.WakeSleeper?)
    ensures DecrementStep(s).pc.Panicked? || (Control(DecrementStep(s)) && Streams(DecrementStep(s)))
  {
  }

  /** A step of a pass leaves tasks and streams alone, and takes nobody off the queue. */
  ghost predicate PassEffect(s: State, s': State) {
    && s'.tasks == s.tasks && s'.timer == s.timer && s'.keys == s.keys && Current(s'.pc) == Current(s.pc)
    && !s'.pc.TimerSecond? && !s'.pc.KeySecond? && forall t :: t in s.ready ==> t in s'.ready
  }

  lemma PushEffect(s: State, s1: State, id: TaskId)
    requires PassEffect(s, s1) && !s1.pc.Panicked?
    ensures PushReady(s1, id).pc.Panicked? || PassEffect(s, PushReady(s1, id))
  {
  }

  lemma FiredEffect(s: State, s1: State, i: SleepId)
    requires PassEffect(s, s1)
    ensures PassEffect(s, Fired(s1, i)) && Fired(s1, i).pc == s1.pc
  {
  }

  lemma PassDoes(s: State)
    requires s.pc.Decrement? || s.pc.WakeSleeper?
    ensures DecrementStep(s).pc.Panicked? || PassEffect(s, DecrementStep(s))
  {
    hide PushReady, Fired;
    if s.pc.WakeSleeper? && s.pc.sleep in s.manager.sleepers {
      var e := s.manager.sleepers[s.pc.sleep];
      var s1 := SetSleeper(s, s.pc.sleep, e.(waker := None)).(pc := Decrement(s.pc.id, s.pc.rest));
      if e.waker.Some? {
        FiredEffect(s, s1, s.pc.sleep);
        PushEffect(s, Fired(s1, s.pc.sleep), e.waker.value);
      }
    }
  }

  lemma DecrementKeepsTimer(s: State)
    requires Control(s) && Streams(s) && TimerAwake(s) && (s.pc.Decrement? || s.pc.WakeSleeper?)
    ensures DecrementStep(s).pc.Panicked? || (TimerAwake(DecrementStep(s)))
  {
    hide DecrementStep;
    PassDoes(s);
  }

  lemma DecrementKeepsKey(s: State)
    requires Control(s) && Streams(s) && KeyAwake(s) && (s.pc.Decrement? || s.pc.WakeSleeper?)
    ensures DecrementStep(s).pc.Panicked? || (KeyAwake(DecrementStep(s)))
  {
    hide DecrementStep;
    PassDoes(s);
  }

  lemma DecrementKeepsAwake(s: State)
    requires AwakeInv(s) && (s.pc.Decrement? || s.pc.WakeSleeper?)
    ensures DecrementStep(s).pc.Panicked? || AwakeInv(DecrementStep(s))
  {
    hide Control, Streams, TimerAwake, KeyAwake;
    DecrementKeepsStreams(s);
    DecrementKeepsTimer(s);
    DecrementKeepsKey(s);
  }

  lemma KeyKeepsStreams(s: State, choice: Choice)
    requires Control(s) && Streams(s) && InKey(s.pc)
    ensures (Control(KeyStep(s, choice)) && Streams(KeyStep(s, choice)))
  {
    assert s.keys.queue == Some(s.keys.queue.value);
  }

  lemma KeyKeepsTimer(s: State, choice: Choice)
    requires Control(s) && Streams(s) && TimerAwake(s) && InKey(s.pc)
    ensures (TimerAwake(KeyStep(s, choice)))
  {
    assert s.keys.queue == Some(s.keys.queue.value);
  }

  lemma KeyKeepsKey(s: State, choice: Choice)
    requires Control(s) && Streams(s) && KeyAwake(s) && InKey(s.pc)
    ensures (KeyAwake(KeyStep(s, choice)))
  {
    assert s.keys.queue == Some(s.keys.queue.value);
  }

  lemma KeyKeepsAwake(s: State, choice: Choice)
    requires AwakeInv(s) && InKey(s.pc)
    ensures AwakeInv(KeyStep(s, choice))
  {
    hide Control, Streams, TimerAwake, KeyAwake;
    KeyKeepsStreams(s, choice);
    KeyKeepsTimer(s, choice);
    KeyKeepsKey(s, choice);
  }

  lemma TaskKeepsStreams(s: State, choice: Choice)
    requires Control(s) && Streams(s) && InTask(s.pc)
    ensures TaskStep(s, choice).pc.Panicked? || (Control(TaskStep(s, choice)) && Streams(TaskStep(s, choice)))
  {
  }

  lemma TaskKeepsTimer(s: State, choice: Choice)
    requires Control(s) && Streams(s) && TimerAwake(s) && InTask(s.pc)
    ensures TaskStep(s, choice).pc.Panicked? || (TimerAwake(TaskStep(s, choice)))
  {
  }

  lemma TaskKeepsKey(s: State, choice: Choice)
    requires Control(s) && Streams(s) && KeyAwake(s) && InTask(s.pc)
    ensures TaskStep(s, choice).pc.Panicked? || (KeyAwake(TaskStep(s, choice)))
  {
  }

  lemma TaskKeepsAwake(s: State, choice: Choice)
    requires AwakeInv(s) && InTask(s.pc)
    ensures TaskStep(s, choice).pc.Panicked? || AwakeInv(TaskStep(s, choice))
  {
    hide Control, Streams, TimerAwake, KeyAwake;
    TaskKeepsStreams(s, choice);
    TaskKeepsTimer(s, choice);
    TaskKeepsKey(s, choice);
  }

  // ---- Sleeps: each kind of step ---------------------------------------------------------------------

  ghost predicate SameAwaits(s: State, s': State) {
    && s'.tasks.Keys == s.tasks.Keys
    && forall t :: t in s.tasks ==> s'.tasks[t].kind == s.tasks[t].kind && s'.tasks[t].awaits == s.tasks[t].awaits
  }

  /** A step that leaves sleeping tasks and sleeps alone. */
  lemma SleepsUntouched(s: State, s': State)
    requires SleepInv(s) && SameAwaits(s, s') && s'.manager == s.manager
    requires !s'.pc.SleepRegister? && !s'.pc.WakeSleeper? && !s.pc.WakeSleeper?
    requires s'.pc.Decrement? ==> forall i :: i in s'.pc.rest ==> i in s.manager.sleepers
    requires forall t :: IsSleeping(s, t) ==>
               multiset(s'.ready)[t] + (if Current(s'.pc) == Some(t) then 1 else 0) ==
               multiset(s.ready)[t] + (if Current(s.pc) == Some(t) then 1 else 0)
    ensures SleepInv(s')
  {
    forall t | IsSleeping(s', t) ensures Tokens(s', t) == 1 {
      assert IsSleeping(s, t) && Tokens(s, t) == 1;
      assert Registered(s', t) == Registered(s, t);
    }
  }

  lemma PopToken(q: seq<TaskId>, t: TaskId)
    requires q != []
    ensures multiset(q)[t] == multiset(q[1..])[t] + (if q[0] == t then 1 else 0)
  {
    assert q == [q[0]] + q[1..];
  }

  lemma PushToken(q: seq<TaskId>, x: TaskId, t: TaskId)
    ensures multiset(q + [x])[t] == multiset(q)[t] + (if x == t then 1 else 0)
  {
  }

  /** An interrupt may queue a stream task and may end a halt; it does nothing else that sleeps depend on. */
  ghost predicate InterruptEffect(s: State, s': State, woken: Option<TaskId>) {
    && s'.tasks == s.tasks && s'.manager == s.manager
    && (s'.pc == s.pc || (s.pc.Halted? && s'.pc.LoopHead?))
    && s'.ready == s.ready + (if woken.Some? then [woken.value] else [])
  }

  lemma RaiseEffect(s: State)
    requires !RaiseTimer(s).pc.Panicked?
    ensures InterruptEffect(s, RaiseTimer(s), if s.timer.flag.Some? then s.timer.waker else None)
  {
    assert s.ready + [] == s.ready;
  }

  lemma ScancodeEffect(s: State, code: Scancode)
    requires !AddScancode(s, code).pc.Panicked?
    ensures InterruptEffect(s, AddScancode(s, code),
                            if s.keys.queue.Some? && |s.keys.queue.value| < QUEUE_CAPACITY then s.keys.waker else None)
  {
    assert s.ready + [] == s.ready;
  }

  lemma InterruptKeepsSleeps(s: State, s': State, woken: Option<TaskId>)
    requires SleepInv(s) && InterruptEffect(s, s', woken) && (woken.Some? ==> !IsSleeping(s, woken.value))
    ensures SleepInv(s')
  {
    forall t | IsSleeping(s', t) ensures Tokens(s', t) == 1 {
      assert IsSleeping(s, t) && Tokens(s, t) == 1;
      assert Registered(s', t) == Registered(s, t);
      if woken.Some? {
        PushToken(s.ready, woken.value, t);
      }
    }
  }

  lemma RaiseKeepsSleeps(s: State)
    requires Streams(s) && TimerAwake(s) && SleepInv(s) && !s.pc.Panicked?
    ensures RaiseTimer(s).pc.Panicked? || SleepInv(RaiseTimer(s))
  {
    hide SleepInv, RaiseTimer, InterruptEffect;
    if !RaiseTimer(s).pc.Panicked? {
      RaiseEffect(s);
      InterruptKeepsSleeps(s, RaiseTimer(s), if s.timer.flag.Some? then s.timer.waker else None);
    }
  }

  lemma ScancodeKeepsSleeps(s: State, code: Scancode)
    requires Streams(s) && KeyAwake(s) && SleepInv(s) && !s.pc.Panicked?
    ensures AddScancode(s, code).pc.Panicked? || SleepInv(AddScancode(s, code))
  {
    hide SleepInv, AddScancode, InterruptEffect;
    if !AddScancode(s, code).pc.Panicked? {
      ScancodeEffect(s, code);
      InterruptKeepsSleeps(s, AddScancode(s, code),
                           if s.keys.queue.Some? && |s.keys.queue.value| < QUEUE_CAPACITY then s.keys.waker else None);
    }
  }

  lemma LoopKeepsSleeps(s: State)
    requires SleepInv(s) && (s.pc.LoopHead? || s.pc.Idle? || s.pc.IdleCheck?)
    ensures SleepInv(Internal(s, Plain))
  {
    hide SleepInv;
    SleepsUntouched(s, Internal(s, Plain));
  }

  lemma PopKeepsSleeps(s: State)
    requires SleepInv(s) && s.pc.PopReady?
    ensures SleepInv(PopStep(s))
  {
    hide SleepInv;
    if s.ready != [] {
      forall t { PopToken(s.ready, t); }
    }
    SleepsUntouched(s, PopStep(s));
  }

  lemma TimerKeepsSleeps(s: State)
    requires Control(s) && Streams(s) && SleepInv(s)
    requires s.pc.TimerFirst? || s.pc.TimerRegister? || s.pc.TimerSecond? || s.pc.TimerTake?
    ensures SleepInv(TimerStep(s))
  {
    hide SleepInv;
    SleepsUntouched(s, TimerStep(s));
  }

  lemma KeyKeepsSleeps(s: State, choice: Choice)
    requires Control(s) && Streams(s) && SleepInv(s) && InKey(s.pc)
    ensures SleepInv(KeyStep(s, choice))
  {
    hide SleepInv;
    SleepsUntouched(s, KeyStep(s, choice));
  }

  lemma PollKeepsSleeps(s: State)
    requires Control(s) && SleepInv(s) && s.pc.Poll?
    ensures PollStep(s, s.pc.id).pc.Panicked? || SleepInv(PollStep(s, s.pc.id))
  {
    hide SleepInv;
    var s' := PollStep(s, s.pc.id);
    if !s'.pc.Panicked? {
      assert s'.tasks.Keys == s.tasks.Keys;
      SleepsUntouched(s, s');
    }
  }

  /** One turn of decrement_all on the entry it visits. */
  ghost predicate DecrementEffect(s: State, s': State) {
    && s.pc.Decrement? && s'.tasks == s.tasks && s'.ready == s.ready && s'.manager.nextId == s.manager.nextId
    && if s.pc.rest == [] then s'.manager == s.manager && s'.pc == TimerFirst(s.pc.id)
       else
         && s.pc.rest[0] in s.manager.sleepers
         && var e := s.manager.sleepers[s.pc.rest[0]];
            var ticks := if e.ticks == 0 then 0 else e.ticks - 1;
            && s'.manager.sleepers == s.manager.sleepers[s.pc.rest[0] := e.(ticks := ticks)]
            && s'.pc == if ticks == 0 then WakeSleeper(s.pc.id, s.pc.rest[0], s.pc.rest[1..]) else Decrement(s.pc.id, s.pc.rest[1..])
  }

  lemma DecrementDoes(s: State)
    requires s.pc.Decrement? && !DecrementStep(s).pc.Panicked?
    ensures DecrementEffect(s, DecrementStep(s))
  {
  }

  lemma DecrementKeepsOwned(s: State, s': State)
    requires SleepsOwned(s) && DecrementEffect(s, s')
    ensures SleepsOwned(s')
  {
  }

  lemma DecrementKeepsTicks(s: State, s': State)
    requires TicksLeft(s) && DecrementEffect(s, s')
    ensures TicksLeft(s')
  {
  }

  lemma DecrementKeepsTokens(s: State, s': State)
    requires OneToken(s) && DecrementEffect(s, s')
    ensures OneToken(s')
  {
    hide OneToken;
    SameRegistrations(s, s');
  }

  lemma DecrementKeepsSleeps(s: State)
    requires SleepInv(s) && s.pc.Decrement?
    ensures DecrementStep(s).pc.Panicked? || SleepInv(DecrementStep(s))
  {
    hide OneToken, SleepsOwned, TicksLeft, DecrementStep, DecrementEffect;
    if !DecrementStep(s).pc.Panicked? {
      DecrementDoes(s);
      DecrementKeepsOwned(s, DecrementStep(s));
      DecrementKeepsTicks(s, DecrementStep(s));
      DecrementKeepsTokens(s, DecrementStep(s));
    }
  }

  /** Tokens depend on who is registered, queued and polled. */
  lemma SameRegistrations(s: State, s': State)
    requires OneToken(s) && SameAwaits(s, s') && s'.ready == s.ready && Current(s'.pc) == Current(s.pc)
    requires s'.manager.sleepers.Keys == s.manager.sleepers.Keys
    requires forall i :: i in s.manager.sleepers ==> s'.manager.sleepers[i].waker == s.manager.sleepers[i].waker
    ensures OneToken(s')
  {
    forall t | IsSleeping(s', t) ensures Tokens(s', t) == 1 {
      assert IsSleeping(s, t) && Tokens(s, t) == 1;
      assert Registered(s', t) == Registered(s, t);
    }
  }

  /** Waking the entry that reached zero: its waker, if any, is taken and queued. */
  ghost predicate WakeEffect(s: State, s': State) {
    && s.pc.WakeSleeper? && s.pc.sleep in s.manager.sleepers
    && s'.tasks == s.tasks && s'.manager.nextId == s.manager.nextId && s'.pc == Decrement(s.pc.id, s.pc.rest)
    && var e := s.manager.sleepers[s.pc.sleep];
       && s'.manager.sleepers == s.manager.sleepers[s.pc.sleep := e.(waker := None)]
       && s'.ready == s.ready + (if e.waker.Some? then [e.waker.value] else [])
  }

  lemma WakeDoes(s: State)
    requires s.pc.WakeSleeper? && !DecrementStep(s).pc.Panicked?
    ensures WakeEffect(s, DecrementStep(s))
  {
    assert s.ready + [] == s.ready;
  }

  lemma WakeKeepsOwned(s: State, s': State)
    requires SleepsOwned(s) && WakeEffect(s, s')
    ensures SleepsOwned(s')
  {
  }

  lemma WakeKeepsTicks(s: State, s': State)
    requires TicksLeft(s) && WakeEffect(s, s')
    ensures TicksLeft(s')
  {
  }

  /** Waking moves the sleeper's token from its registration to the queue. */
  lemma WakeMovesToken(s: State, s': State)
    requires SleepsOwned(s) && OneToken(s) && WakeEffect(s, s')
    ensures OneToken(s')
  {
    hide SleepsOwned;
    var w := s.manager.sleepers[s.pc.sleep].waker;
    forall t | IsSleeping(s', t) ensures Tokens(s', t) == 1 {
      assert IsSleeping(s, t) && Tokens(s, t) == 1;
      WakeToken(s, s', t);
      if w.Some? {
        PushToken(s.ready, w.value, t);
      }
    }
  }

  lemma WakeToken(s: State, s': State, t: TaskId)
    requires SleepsOwned(s) && WakeEffect(s, s') && t in s.tasks
    ensures Registered(s', t) <==> Registered(s, t) && s.manager.sleepers[s.pc.sleep].waker != Some(t)
    ensures s.manager.sleepers[s.pc.sleep].waker == Some(t) ==> Registered(s, t)
  {
  }

  lemma WakeKeepsSleeps(s: State)
    requires SleepInv(s) && s.pc.WakeSleeper?
    ensures DecrementStep(s).pc.Panicked? || SleepInv(DecrementStep(s))
  {
    hide OneToken, SleepsOwned, TicksLeft, DecrementStep, WakeEffect;
    if !DecrementStep(s).pc.Panicked? {
      WakeDoes(s);
      WakeKeepsOwned(s, DecrementStep(s));
      WakeKeepsTicks(s, DecrementStep(s));
      WakeMovesToken(s, DecrementStep(s));
    }
  }

  // ---- Sleep::new, Sleep::poll and the end of a task ------------------------------------------------

  lemma SleepNewKeepsSleeps(s: State, id: TaskId, ms: nat)
    requires Control(s) && SleepInv(s) && s.pc == Body(id)
    ensures SleepNew(s, id, ms).pc.Panicked? || SleepInv(SleepNew(s, id, ms))
  {
    hide OneToken;
    NewSleepTokens(s, id, ms);
  }

  lemma NewSleepTokens(s: State, id: TaskId, ms: nat)
    requires Control(s) && SleepsOwned(s) && OneToken(s) && s.pc == Body(id)
    ensures SleepNew(s, id, ms).pc.Panicked? || OneToken(SleepNew(s, id, ms))
  {
    var s' := SleepNew(s, id, ms);
    if !s'.pc.Panicked? {
      forall t | IsSleeping(s', t) ensures Tokens(s', t) == 1 {
        assert IsSleeping(s, t) && Tokens(s, t) == 1;
        assert Registered(s', t) == Registered(s, t);
      }
    }
  }

  lemma RegisterKeepsSleeps(s: State, choice: Choice)
    requires Control(s) && SleepInv(s) && s.pc.SleepRegister?
    ensures TaskStep(s, choice).pc.Panicked? || SleepInv(TaskStep(s, choice))
  {
    hide OneToken;
    RegisterMovesToken(s, choice);
  }

  lemma RegisterMovesToken(s: State, choice: Choice)
    requires Control(s) && SleepsOwned(s) && OneToken(s) && s.pc.SleepRegister?
    ensures TaskStep(s, choice).pc.Panicked? || OneToken(TaskStep(s, choice))
  {
    var s' := TaskStep(s, choice);
    if !s'.pc.Panicked? {
      forall t | IsSleeping(s', t) ensures Tokens(s', t) == 1 {
        assert IsSleeping(s, t) && Tokens(s, t) == 1;
        assert t != s.pc.id ==> Registered(s', t) == Registered(s, t);
      }
    }
  }

  lemma CheckKeepsSleeps(s: State, choice: Choice)
    requires Control(s) && SleepInv(s) && s.pc.SleepCheck?
    ensures TaskStep(s, choice).pc.Panicked? || SleepInv(TaskStep(s, choice))
  {
    hide OneToken;
    CheckKeepsTokens(s, choice);
  }

  lemma CheckKeepsTokens(s: State, choice: Choice)
    requires Control(s) && SleepsOwned(s) && OneToken(s) && s.pc.SleepCheck?
    ensures TaskStep(s, choice).pc.Panicked? || OneToken(TaskStep(s, choice))
  {
    var s' := TaskStep(s, choice);
    if !s'.pc.Panicked? {
      forall t | IsSleeping(s', t) ensures Tokens(s', t) == 1 {
        assert IsSleeping(s, t) && Tokens(s, t) == 1;
        assert Registered(s', t) == Registered(s, t);
      }
    }
  }

  lemma FinishKeepsSleeps(s: State, choice: Choice)
    requires Control(s) && SleepInv(s) && s.pc.Finish?
    ensures SleepInv(TaskStep(s, choice))
  {
    hide OneToken;
    FinishKeepsTokens(s, choice);
  }

  lemma FinishKeepsTokens(s: State, choice: Choice)
    requires Control(s) && SleepsOwned(s) && OneToken(s) && s.pc.Finish?
    ensures OneToken(TaskStep(s, choice))
  {
    var s' := TaskStep(s, choice);
    forall t | IsSleeping(s', t) ensures Tokens(s', t) == 1 {
      assert IsSleeping(s, t) && Tokens(s, t) == 1;
      assert Registered(s', t) == Registered(s, t);
    }
  }

  lemma TaskKeepsSleeps(s: State, choice: Choice)
    requires Control(s) && SleepInv(s) && InTask(s.pc)
    ensures TaskStep(s, choice).pc.Panicked? || SleepInv(TaskStep(s, choice))
  {
    hide SleepInv;
    match s.pc {
      case Body(id) =>
        if choice.SleepFor? {
          SleepNewKeepsSleeps(s, id, choice.ms);
        } else {
          SleepsUntouched(s, TaskStep(s, choice));
        }
      case SleepCheck(_) => CheckKeepsSleeps(s, choice);
      case SleepRegister(_) => RegisterKeepsSleeps(s, choice);
      case Finish(_) => FinishKeepsSleeps(s, choice);
    }
  }

  // ---- All steps, all runs ------------------------------------------------------------------------------

  lemma InternalKeepsInv(s: State, choice: Choice)
    requires AwakeInv(s) && SleepInv(s)
    ensures Inv(Internal(s, choice))
  {
    hide SleepInv, Streams, TimerAwake, KeyAwake, PopStep, PollStep, TimerStep, DecrementStep, KeyStep, TaskStep;
    if s.pc.LoopHead? || s.pc.Idle? || s.pc.IdleCheck? {
      LoopKeepsAwake(s);
      LoopKeepsSleeps(s);
    } else if s.pc.PopReady? {
      PopKeepsAwake(s);
      PopKeepsSleeps(s);
    } else if s.pc.Poll? {
      PollKeepsAwake(s);
      PollKeepsSleeps(s);
    } else if s.pc.TimerFirst? || s.pc.TimerRegister? || s.pc.TimerSecond? || s.pc.TimerTake? {
      TimerKeepsAwake(s);
      TimerKeepsSleeps(s);
    } else if s.pc.Decrement? {
      DecrementKeepsAwake(s);
      DecrementKeepsSleeps(s);
    } else if s.pc.WakeSleeper? {
      DecrementKeepsAwake(s);
      WakeKeepsSleeps(s);
    } else if InKey(s.pc) {
      KeyKeepsAwake(s, choice);
      KeyKeepsSleeps(s, choice);
    } else if InTask(s.pc) {
      TaskKeepsAwake(s, choice);
      TaskKeepsSleeps(s, choice);
    }
  }

  lemma NextKeepsInv(s: State, a: Action)
    requires Inv(s)
    ensures Inv(Next(s, a))
  {
    hide SleepInv, Control, Streams, TimerAwake, KeyAwake, Internal, RaiseTimer, AddScancode;
    if !s.pc.Panicked? && !s.pc.Stopped? {
      match a {
        case Step(choice) =>
          InternalKeepsInv(s, choice);
        case TimerInterrupt =>
          if s.interrupts {
            RaiseKeepsAwake(s);
            RaiseKeepsSleeps(s);
          }
        case KeyboardInterrupt(code) =>
          if s.interrupts {
            ScancodeKeepsAwake(s, code);
            ScancodeKeepsSleeps(s, code);
          }
      }
    }
  }

  lemma {:induction false} RunKeepsInv(s: State, actions: seq<Action>)
    requires Inv(s)
    ensures Inv(Run(s, actions))
    decreases |actions|
  {
    hide Inv, Next;
    if actions != [] {
      NextKeepsInv(s, actions[0]);
      RunKeepsInv(Next(s, actions[0]), actions[1..]);
    }
  }

  /** Only what spawning has produced so far. */
  /** One task per kind, under its place for an id, and all of them queued in that order. */
  ghost predicate JustSpawned(s: State, kinds: seq<Kind>) {
    && s.pc.LoopHead? && s.interrupts && !s.stop && s.timer == TimerCells(None, None, None) && s.keys == KeyCells(None, None, None)
    && s.manager == Manager(map[], 0)
    && (forall t: TaskId :: t in s.tasks <==> t < |kinds|)
    && (forall t :: t in s.tasks ==> s.tasks[t] == Task(kinds[t], false, None))
    && s.ready == seq(|kinds|, i => i)
  }

  lemma SpawnKeeps(s: State, kinds: seq<Kind>, kind: Kind)
    requires JustSpawned(s, kinds)
    ensures if |kinds| < 100 then JustSpawned(Spawn(s, |kinds|, kind), kinds + [kind]) else Spawn(s, |kinds|, kind).pc.Panicked?
  {
    assert seq(|kinds| + 1, i => i) == seq(|kinds|, i => i) + [|kinds|];
  }

  /** Booting panics exactly with more tasks than the queue holds; else every task is there, and queued
      once, in the order of spawning. */
  lemma {:induction false} BootSpawns(kinds: seq<Kind>)
    ensures if |kinds| <= 100 then JustSpawned(Boot(kinds), kinds) else Boot(kinds).pc.Panicked?
    decreases |kinds|
  {
    hide JustSpawned, Spawn;
    if kinds == [] {
      NothingSpawned(Boot([]));
    } else {
      var most := kinds[..|kinds| - 1];
      BootSpawns(most);
      if |most| <= 100 {
        NotYetPanicked(Boot(most), most);
        SpawnKeeps(Boot(most), most, kinds[|kinds| - 1]);
        assert most + [kinds[|kinds| - 1]] == kinds;
      }
    }
  }

  lemma NothingSpawned(s: State)
    requires s == Boot([])
    ensures JustSpawned(s, [])
  {
  }

  lemma NotYetPanicked(s: State, kinds: seq<Kind>)
    requires JustSpawned(s, kinds)
    ensures !s.pc.Panicked?
  {
  }

  lemma SpawnedInv(s: State, kinds: seq<Kind>)
    requires JustSpawned(s, kinds)
    ensures Inv(s)
  {
    forall t: TaskId | t < |kinds| ensures multiset(s.ready)[t] == 1 && t in s.ready {
      Counted(|kinds|, t);
      assert s.ready[t] == t;
    }
  }

  lemma {:induction false} Counted(n: nat, t: TaskId)
    ensures multiset(seq(n, i => i))[t] == if t < n then 1 else 0
    decreases n
  {
    if n == 0 {
      assert seq(n, i => i) == [];
    } else {
      Counted(n - 1, t);
      assert seq(n, i => i) == seq(n - 1, i => i) + [n - 1];
    }
  }

  /** Every live task waits for something that has not happened yet, with its waker in place. */
  ghost predicate AllParked(s: State) {
    forall t :: t in s.tasks ==>
      match s.tasks[t].kind
      case TimerLoop => s.timer.waker == Some(t) && s.timer.flag == Some(false)
      case KeyPrinter => s.keys.waker == Some(t) && s.keys.queue == Some([])
      case Sleeping => Registered(s, t) && s.manager.sleepers[s.tasks[t].awaits.value].ticks > 0
  }

  lemma HaltedMeansParked(s: State)
    requires Inv(s) && s.pc.Halted?
    ensures s.ready == [] && AllParked(s)
    ensures s.timer.flag != Some(true)
    ensures s.keys.queue.Some? ==> s.keys.queue.value == []
  {
    forall t | t in s.tasks && s.tasks[t].kind.Sleeping?
      ensures Registered(s, t) && s.manager.sleepers[s.tasks[t].awaits.value].ticks > 0
    {
      assert IsSleeping(s, t) && Tokens(s, t) == 1;
    }
    forall t | t in s.tasks && !s.tasks[t].kind.Sleeping? ensures s.tasks[t].started {
      assert s.tasks[t].started || t in s.ready;
    }
    forall t | t in s.tasks && s.tasks[t].kind.TimerLoop? ensures s.timer.waker == Some(t) && s.timer.flag == Some(false) {
      assert s.timer.task == Some(t);
    }
    forall t | t in s.tasks && s.tasks[t].kind.KeyPrinter? ensures s.keys.waker == Some(t) && s.keys.queue == Some([]) {
      assert s.keys.task == Some(t);
    }
  }

  /** No lost wake-up: in every run from boot, under every interleaving of interrupts, a halted
      processor has nothing to do and everyone who could have something to do will be woken. */
  lemma NoLostWakeup(kinds: seq<Kind>, actions: seq<Action>)
    ensures var s := Run(Boot(kinds), actions);
            s.pc.Halted? ==>
              && s.ready == [] && s.timer.flag != Some(true) && (s.keys.queue.Some? ==> s.keys.queue.value == [])
              && AllParked(s)
  {
    hide Inv, Run, Boot, AllParked, JustSpawned;
    var s0 := Boot(kinds);
    BootSpawns(kinds);
    if |kinds| <= 100 {
      SpawnedInv(s0, kinds);
    } else {
      PanickedInv(s0);
    }
    RunKeepsInv(s0, actions);
    if Run(s0, actions).pc.Halted? {
      HaltedMeansParked(Run(s0, actions));
    }
  }

  lemma PanickedInv(s: State)
    requires s.pc.Panicked?
    ensures Inv(s)
  {
  }
}
