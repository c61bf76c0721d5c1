/** The executor gets things done: tasks are served in the order in which they were queued, without
    interrupts it comes to rest, and a sleep ends with the tick that it asked for. */
module TasksProgress {
  import opened Collections
  import opened Tasks
  import opened TasksSafety
  import opened TasksTiming

  // ---- The ready queue -------------------------------------------------------------------------------

  /** The next task is taken from the queue. */
  predicate Serves(s: State, a: Action) { a.Step? && s.pc.PopReady? && s.ready != [] }

  /** Whom an action wakes. */
  function Woken(s: State, a: Action): Option<TaskId> {
    match a
    case TimerInterrupt => if s.interrupts && s.timer.flag.Some? then s.timer.waker else None
    case KeyboardInterrupt(_) =>
      if s.interrupts && s.keys.queue.Some? && |s.keys.queue.value| < 100 then s.keys.waker else None
    case Step(_) =>
      if s.pc.WakeSleeper? && s.pc.sleep in s.manager.sleepers then s.manager.sleepers[s.pc.sleep].waker else None
  }

  /** A task is polled for the first time while a stream of its kind exists. */
  ghost predicate SecondStream(s: State, a: Action) {
    && a.Step? && s.pc.Poll? && s.pc.id in s.tasks && !s.tasks[s.pc.id].started && !s.tasks[s.pc.id].kind.Sleeping?
    && exists u :: u in s.tasks && s.tasks[u].started && s.tasks[u].kind == s.tasks[s.pc.id].kind
  }

  /** The first in the queue leaves it if it is served, and who is woken goes to its end. */
  function QueueAfter(s: State, a: Action): seq<TaskId> {
    (if Serves(s, a) then s.ready[1..] else s.ready) + (if Woken(s, a).Some? then [Woken(s, a).value] else [])
  }

  /** What an action does to the queue, and exactly when it panics. */
  ghost predicate Served(s: State, a: Action, s': State) {
    && (s'.pc.Panicked? <==> (Woken(s, a).Some? && |s.ready| >= 100) || SecondStream(s, a))
    && (!s'.pc.Panicked? ==> s'.ready == QueueAfter(s, a))
    && (Serves(s, a) ==> s'.pc == if s.ready[0] in s.tasks then Poll(s.ready[0]) else PopReady)
  }

  lemma InterruptServes(s: State, a: Action)
    requires !s.pc.Panicked? && !s.pc.Stopped? && !a.Step?
    ensures Served(s, a, Next(s, a))
  {
  }

  lemma PollServes(s: State, choice: Choice)
    requires Control(s) && Streams(s) && s.pc.Poll?
    ensures Served(s, Step(choice), Internal(s, choice))
  {
  }

  lemma WakeServes(s: State, choice: Choice)
    requires TicksLeft(s) && (s.pc.Decrement? || s.pc.WakeSleeper?)
    ensures Served(s, Step(choice), Internal(s, choice))
  {
    if s.pc.Decrement? && s.pc.rest != [] {
      assert s.pc.rest[0] in s.pc.rest;
    }
  }

  lemma TaskServes(s: State, choice: Choice)
    requires Control(s) && SleepsOwned(s) && InTask(s.pc)
    ensures Served(s, Step(choice), Internal(s, choice))
  {
  }

  lemma OtherServes(s: State, choice: Choice)
    requires !s.pc.Panicked? && !InTask(s.pc) && !s.pc.Poll? && !s.pc.Decrement? && !s.pc.WakeSleeper?
    ensures Served(s, Step(choice), Internal(s, choice))
  {
    hide TaskStep, DecrementStep, PollStep;
  }

  /** In every state that keeps the invariant, an action panics exactly if it wakes a task while a
      hundred are queued or starts a second stream of a kind; otherwise the queue is first in, first
      out, and whoever was queued longest is polled next. */
  lemma ServedInOrder(s: State, a: Action)
    requires Inv(s) && !s.pc.Panicked? && !s.pc.Stopped?
    ensures Served(s, a, Next(s, a))
  {
    hide Served, Control, Streams, TimerAwake, KeyAwake, SleepsOwned, OneToken, TicksLeft, Internal, RaiseTimer, AddScancode;
    match a {
      case Step(choice) =>
        if s.pc.Poll? {
          PollServes(s, choice);
        } else if s.pc.Decrement? || s.pc.WakeSleeper? {
          WakeServes(s, choice);
        } else if InTask(s.pc) {
          TaskServes(s, choice);
        } else {
          OtherServes(s, choice);
        }
      case TimerInterrupt =>
        InterruptServes(s, a);
      case KeyboardInterrupt(code) =>
        InterruptServes(s, a);
    }
  }

  /** Any interrupt ends a halt, and nothing else does; the executor stops at the head of its loop,
      exactly if a key has asked for it. */
  lemma HaltsAndStops(s: State, a: Action)
    requires Inv(s) && !s.pc.Panicked? && !s.pc.Stopped?
    ensures var s' := Next(s, a);
            && (s.pc.Halted? ==> s'.pc == if a.Step? then Halted else LoopHead)
            && (s'.pc.Stopped? <==> a.Step? && s.pc.LoopHead? && s.stop)
            && (s'.stop <==> s.stop || (a == Step(SetStop) && s.pc.KeyProcess?))
  {
    hide Streams, TimerAwake, KeyAwake, SleepsOwned, OneToken, TicksLeft, SortedKeysBelow;
    match a {
      case Step(choice) =>
        StepStops(s, choice);
      case TimerInterrupt =>
      case KeyboardInterrupt(code) =>
    }
  }

  /** The step neither stops the executor nor asks for it, and does not halt. */
  ghost predicate GoesOn(s: State, s': State) { s'.stop == s.stop && !s'.pc.Stopped? && !s'.pc.Halted? }

  lemma TaskGoesOn(s: State, choice: Choice)
    requires InTask(s.pc) && s.pc.id in s.tasks
    ensures GoesOn(s, TaskStep(s, choice))
  {
  }

  lemma PassGoesOn(s: State)
    requires s.pc.Decrement? || s.pc.WakeSleeper?
    ensures GoesOn(s, DecrementStep(s))
  {
  }

  lemma TimerGoesOn(s: State)
    requires s.pc.TimerFirst? || s.pc.TimerRegister? || s.pc.TimerSecond? || s.pc.TimerTake?
    ensures GoesOn(s, TimerStep(s))
  {
    hide SortedKeysBelow;
  }

  lemma KeyGoesOn(s: State, choice: Choice)
    requires InKey(s.pc)
    ensures var s' := KeyStep(s, choice);
            !s'.pc.Stopped? && !s'.pc.Halted? && (s'.stop <==> s.stop || (choice.SetStop? && s.pc.KeyProcess?))
  {
  }

  lemma PollGoesOn(s: State)
    requires s.pc.Poll? && s.pc.id in s.tasks
    ensures GoesOn(s, PollStep(s, s.pc.id))
  {
  }

  lemma StepStops(s: State, choice: Choice)
    ensures var s' := Internal(s, choice);
            && (s.pc.Halted? ==> s'.pc.Halted?)
            && (s'.pc.Stopped? <==> s.pc.Stopped? || (s.pc.LoopHead? && s.stop))
            && (s'.stop <==> s.stop || (choice.SetStop? && s.pc.KeyProcess?))
  {
    hide TaskStep, DecrementStep, KeyStep, TimerStep, PollStep;
    if InTask(s.pc) && s.pc.id in s.tasks {
      TaskGoesOn(s, choice);
    } else if s.pc.Decrement? || s.pc.WakeSleeper? {
      PassGoesOn(s);
    } else if InTimer(s.pc) {
      TimerGoesOn(s);
    } else if InKey(s.pc) {
      KeyGoesOn(s, choice);
    } else if s.pc.Poll? && s.pc.id in s.tasks {
      PollGoesOn(s);
    }
  }

  /** A future that is ready takes its task and the task's waker away, and nothing else. */
  lemma FinishedTaskIsGone(s: State, id: TaskId, choice: Choice)
    requires Control(s) && s.pc == Body(id)
    ensures var s' := Next(Next(s, Step(Complete)), Step(choice));
            s' == s.(tasks := s.tasks - {id}, wakerCache := s.wakerCache - {id}, pc := PopReady)
  {
  }

  /** The waker cells of the two streams: an interrupt that wakes empties the cell, so does a stream that
      found something after registering, and registering fills it; nothing else touches them. */
  ghost predicate WakersMove(s: State, a: Action, s': State) {
    && s'.timer.waker == (if a.TimerInterrupt? && s.interrupts && s.timer.flag.Some? then None
                          else if a.Step? && s.pc.TimerRegister? then Some(s.pc.id)
                          else if a.Step? && s.pc.TimerTake? then None
                          else s.timer.waker)
    && s'.keys.waker == (if a.KeyboardInterrupt? && s.interrupts && s.keys.queue.Some? && |s.keys.queue.value| < 100 then None
                         else if a.Step? && s.pc.KeyRegister? then Some(s.pc.id)
                         else if a.Step? && s.pc.KeyTake? then None
                         else s.keys.waker)
  }

  lemma TaskKeepsWakers(s: State, choice: Choice)
    requires InTask(s.pc) && s.pc.id in s.tasks
    ensures TaskStep(s, choice).timer == s.timer && TaskStep(s, choice).keys == s.keys
  {
  }

  lemma PassKeepsWakers(s: State)
    requires s.pc.Decrement? || s.pc.WakeSleeper?
    ensures DecrementStep(s).timer == s.timer && DecrementStep(s).keys == s.keys
  {
  }

  lemma StreamWakers(s: State, a: Action)
    requires !s.pc.Panicked? && !s.pc.Stopped?
    ensures WakersMove(s, a, Next(s, a))
  {
    hide TaskStep, DecrementStep, SortedKeysBelow;
    if a.Step? && InTask(s.pc) && s.pc.id in s.tasks {
      TaskKeepsWakers(s, a.choice);
    } else if s.pc.Decrement? || s.pc.WakeSleeper? {
      PassKeepsWakers(s);
    }
  }

  /** What is recorded of the interrupts: each one that finds the flag in place counts once. */
  lemma RaisedCounts(s: State, a: Action)
    requires !s.pc.Panicked? && !s.pc.Stopped?
    ensures Next(s, a).hist.raised == s.hist.raised + Bit(a.TimerInterrupt? && s.interrupts && s.timer.flag.Some?)
  {
    hide TaskStep, DecrementStep, SortedKeysBelow;
    if a.Step? && InTask(s.pc) && s.pc.id in s.tasks {
      assert TaskStep(s, a.choice).hist.raised == s.hist.raised by { TaskRaisesNothing(s, a.choice); }
    } else if s.pc.Decrement? || s.pc.WakeSleeper? {
      PassFrame(s);
    }
  }

  lemma TaskRaisesNothing(s: State, choice: Choice)
    requires InTask(s.pc) && s.pc.id in s.tasks
    ensures TaskStep(s, choice).hist.raised == s.hist.raised
  {
  }

  // ---- Cached wakers ---------------------------------------------------------------------------------

  /** Wakers are kept for live tasks only, and for all of those that have been polled into their future. */
  ghost predicate CacheFits(s: State) {
    && (forall t :: t in s.wakerCache ==> t in s.tasks)
    && (Current(s.pc).Some? && !s.pc.Poll? ==> s.pc.id in s.wakerCache)
    && (forall t :: t in s.tasks && (s.tasks[t].started || s.tasks[t].awaits.Some?) ==> t in s.wakerCache)
  }

  lemma TaskKeepsCache(s: State, choice: Choice)
    requires InTask(s.pc) && s.pc.id in s.tasks && CacheFits(s)
    ensures TaskStep(s, choice).pc.Panicked? || CacheFits(TaskStep(s, choice))
  {
  }

  lemma PollKeepsCache(s: State)
    requires s.pc.Poll? && s.pc.id in s.tasks && CacheFits(s)
    ensures PollStep(s, s.pc.id).pc.Panicked? || CacheFits(PollStep(s, s.pc.id))
  {
  }

  /** Neither tasks nor wakers change, and whoever is polled goes on being polled or gives way. */
  ghost predicate SameCache(s: State, s': State) {
    && s'.wakerCache == s.wakerCache && s'.tasks == s.tasks
    && (s'.pc.Poll? || Current(s'.pc).None? || Current(s'.pc) == Current(s.pc))
  }

  lemma SameCacheFits(s: State, s': State)
    requires CacheFits(s) && SameCache(s, s') && !s.pc.Poll?
    ensures CacheFits(s')
  {
  }

  lemma PassKeepsCache(s: State)
    requires s.pc.Decrement? || s.pc.WakeSleeper?
    ensures SameCache(s, DecrementStep(s))
  {
  }

  lemma TimerKeepsCache(s: State)
    requires s.pc.TimerFirst? || s.pc.TimerRegister? || s.pc.TimerSecond? || s.pc.TimerTake?
    ensures SameCache(s, TimerStep(s))
  {
    hide SortedKeysBelow;
  }

  lemma KeyKeepsCache(s: State, choice: Choice)
    requires InKey(s.pc)
    ensures SameCache(s, KeyStep(s, choice))
  {
  }

  lemma LoopKeepsCache(s: State, choice: Choice)
    requires Current(s.pc).None?
    ensures SameCache(s, Internal(s, choice))
  {
    hide TaskStep, DecrementStep, KeyStep, TimerStep, PollStep;
  }

  lemma StepKeepsCache(s: State, choice: Choice)
    requires !s.pc.Panicked? && CacheFits(s)
    ensures Internal(s, choice).pc.Panicked? || CacheFits(Internal(s, choice))
  {
    hide CacheFits, SameCache, TaskStep, DecrementStep, KeyStep, TimerStep, PollStep, PopStep;
    if InTask(s.pc) {
      if s.pc.id in s.tasks {
        TaskKeepsCache(s, choice);
      }
    } else if s.pc.Poll? {
      if s.pc.id in s.tasks {
        PollKeepsCache(s);
      }
    } else {
      if s.pc.Decrement? || s.pc.WakeSleeper? {
        PassKeepsCache(s);
      } else if InTimer(s.pc) {
        TimerKeepsCache(s);
      } else if InKey(s.pc) {
        KeyKeepsCache(s, choice);
      } else {
        LoopKeepsCache(s, choice);
      }
      SameCacheFits(s, Internal(s, choice));
    }
  }

  lemma NextKeepsCache(s: State, a: Action)
    requires !s.pc.Panicked? && CacheFits(s)
    ensures Next(s, a).pc.Panicked? || CacheFits(Next(s, a))
  {
    hide Internal;
    if a.Step? {
      StepKeepsCache(s, a.choice);
    }
  }

  lemma {:induction false} RunKeepsCache(s: State, actions: seq<Action>)
    requires s.pc.Panicked? || CacheFits(s)
    ensures Run(s, actions).pc.Panicked? || CacheFits(Run(s, actions))
    decreases |actions|
  {
    hide CacheFits, Internal, RaiseTimer, AddScancode;
    if actions != [] {
      if !s.pc.Panicked? {
        NextKeepsCache(s, actions[0]);
      }
      RunKeepsCache(Next(s, actions[0]), actions[1..]);
    }
  }

  /** In every run from boot. */
  lemma CacheNeverLeaks(kinds: seq<Kind>, actions: seq<Action>)
    ensures var s := Run(Boot(kinds), actions); s.pc.Panicked? || CacheFits(s)
  {
    hide Run, Boot;
    BootSpawns(kinds);
    EmptyCache(kinds);
    RunKeepsCache(Boot(kinds), actions);
  }

  lemma {:induction false} EmptyCache(kinds: seq<Kind>)
    ensures Boot(kinds).wakerCache == {}
    decreases |kinds|
  {
    if kinds != [] {
      EmptyCache(kinds[..|kinds| - 1]);
    }
  }

  // ---- Coming to rest --------------------------------------------------------------------------------

  predicate AtRest(pc: Pc) { pc.Halted? || pc.Stopped? || pc.Panicked? }

  /** `n` steps without an interrupt; whoever is asked sleeps for `ms`. */
  function Quiet(n: nat, ms: nat): (r: seq<Action>)
    ensures |r| == n
  {
    seq(n, i => Step(SleepFor(ms)))
  }

  /** A tick to be consumed, or a pass under way. */
  function TickWork(s: State): nat {
    (if s.timer.flag == Some(true) then 2 else 0) + (if NoPass(s.pc) then 0 else 1)
  }

  function PassWork(s: State): nat {
    match s.pc
    case TimerTake(_) => 2 * |SortedKeysBelow(s.manager.sleepers, s.manager.nextId)| + 2
    case Decrement(_, rest) => 2 * |rest| + 1
    case WakeSleeper(_, _, rest) => 2 * |rest| + 2
    case _ => 0
  }

  function KeyWork(s: State): nat { if s.keys.queue.Some? then |s.keys.queue.value| else 0 }

  /** Whether the task that is polled finds its sleep over. */
  predicate SleepOver(s: State, id: TaskId) {
    id in s.tasks && s.tasks[id].awaits.Some? && s.tasks[id].awaits.value in s.manager.sleepers &&
    s.manager.sleepers[s.tasks[id].awaits.value].ticks == 0
  }

  /** How far the processor is from its next visit to the queue. */
  function Distance(s: State): nat {
    match s.pc
    case Poll(_) => 30
    case SleepCheck(id) => if SleepOver(s, id) then 20 else 10
    case Body(_) => 15
    case SleepRegister(_) => 9
    case Finish(_) => 9
    case KeyTake(_) => 15
    case KeyProcess(_) => 14
    case KeyFirst(_) => 13
    case KeyRegister(_) => 12
    case KeySecond(_) => 11
    case TimerFirst(_) => 12
    case TimerRegister(_) => 11
    case TimerSecond(_) => 10
    case Idle => if s.ready == [] then 2 else 7
    case IdleCheck => if s.ready == [] then 1 else 6
    case LoopHead => 5
    case PopReady => if s.ready == [] then 3 else 4
    case _ => 0
  }

  ghost predicate Closer(s: State, s': State) {
    || TickWork(s') < TickWork(s)
    || (TickWork(s') == TickWork(s) && PassWork(s') < PassWork(s))
    || (TickWork(s') == TickWork(s) && PassWork(s') == PassWork(s) && |s'.ready| < |s.ready|)
    || (TickWork(s') == TickWork(s) && PassWork(s') == PassWork(s) && |s'.ready| == |s.ready| && KeyWork(s') < KeyWork(s))
    || (TickWork(s') == TickWork(s) && PassWork(s') == PassWork(s) && |s'.ready| == |s.ready| && KeyWork(s') == KeyWork(s) &&
        Distance(s') < Distance(s))
  }

  lemma TaskComesCloser(s: State, ms: nat)
    requires InTask(s.pc)
    ensures var s' := Internal(s, SleepFor(ms)); AtRest(s'.pc) || Closer(s, s')
  {
  }

  lemma PassComesCloser(s: State, ms: nat)
    requires s.pc.Decrement? || s.pc.WakeSleeper?
    ensures var s' := Internal(s, SleepFor(ms)); AtRest(s'.pc) || Closer(s, s')
  {
    hide Distance, KeyWork, SleepOver, DecrementStep;
    PassShrinks(s);
  }

  lemma PassShrinks(s: State)
    requires s.pc.Decrement? || s.pc.WakeSleeper?
    ensures var s' := DecrementStep(s);
            AtRest(s'.pc) || TickWork(s') < TickWork(s) || (TickWork(s') == TickWork(s) && PassWork(s') < PassWork(s))
  {
    hide SortedKeysBelow;
  }

  lemma TimerComesCloser(s: State, ms: nat)
    requires s.pc.TimerFirst? || s.pc.TimerRegister? || s.pc.TimerSecond? || s.pc.TimerTake?
    ensures var s' := Internal(s, SleepFor(ms)); AtRest(s'.pc) || Closer(s, s')
  {
    hide SortedKeysBelow, SleepOver;
  }

  lemma KeyComesCloser(s: State, ms: nat)
    requires InKey(s.pc)
    ensures var s' := Internal(s, SleepFor(ms)); AtRest(s'.pc) || Closer(s, s')
  {
    hide SortedKeysBelow, SleepOver;
  }

  lemma PollComesCloser(s: State, ms: nat)
    requires s.pc.Poll?
    ensures var s' := Internal(s, SleepFor(ms)); AtRest(s'.pc) || Closer(s, s')
  {
    hide SortedKeysBelow, SleepOver;
  }

  lemma LoopComesCloser(s: State, ms: nat)
    requires s.pc.LoopHead? || s.pc.PopReady? || s.pc.Idle? || s.pc.IdleCheck?
    ensures var s' := Internal(s, SleepFor(ms)); AtRest(s'.pc) || Closer(s, s')
  {
    hide SortedKeysBelow, SleepOver;
  }

  lemma StepComesCloser(s: State, ms: nat)
    requires !AtRest(s.pc)
    ensures var s' := Internal(s, SleepFor(ms)); AtRest(s'.pc) || Closer(s, s')
  {
    hide Closer, Internal;
    if InTask(s.pc) {
      TaskComesCloser(s, ms);
    } else if s.pc.Decrement? || s.pc.WakeSleeper? {
      PassComesCloser(s, ms);
    } else if InTimer(s.pc) {
      TimerComesCloser(s, ms);
    } else if InKey(s.pc) {
      KeyComesCloser(s, ms);
    } else if s.pc.Poll? {
      PollComesCloser(s, ms);
    } else {
      LoopComesCloser(s, ms);
    }
  }

  lemma QuietStep(s: State, n: nat, ms: nat)
    ensures Run(s, Quiet(n + 1, ms)) == Run(Next(s, Step(SleepFor(ms))), Quiet(n, ms))
  {
    hide Next;
    assert Quiet(n + 1, ms)[1..] == Quiet(n, ms);
  }

  /** From every state, if no interrupt comes in between and tasks ask only for sleep, the processor
      halts, stops or panics. */
  lemma {:induction false} ComesToRest(s: State, ms: nat) returns (n: nat)
    ensures AtRest(Run(s, Quiet(n, ms)).pc)
    decreases TickWork(s), PassWork(s), |s.ready|, KeyWork(s), Distance(s)
  {
    hide Internal, TickWork, PassWork, KeyWork, Distance;
    if AtRest(s.pc) {
      n := 0;
    } else {
      StepComesCloser(s, ms);
      var s' := Next(s, Step(SleepFor(ms)));
      if AtRest(s'.pc) {
        n := 1;
        QuietStep(s, 0, ms);
      } else {
        n := ComesToRest(s', ms);
        QuietStep(s, n, ms);
        n := n + 1;
      }
    }
  }

  // ---- Without panics --------------------------------------------------------------------------------

  /** At most one task of either stream kind. */
  ghost predicate OneOfEach(s: State) {
    forall t, u :: t in s.tasks && u in s.tasks && s.tasks[t].kind == s.tasks[u].kind && !s.tasks[t].kind.Sleeping? ==> t == u
  }

  /** Nobody is queued twice, and there is room for everyone. */
  ghost predicate Roomy(s: State, n: nat) {
    n <= 100 && Distinct(s.ready) && (forall t :: t in s.ready ==> t < n) && (forall t :: t in s.tasks ==> t < n)
  }

  ghost predicate Calm(s: State, n: nat) {
    && AwakeInv(s) && SleepInv(s) && TimingInv(s) && OneOfEach(s) && Roomy(s, n)
    && !s.pc.Panicked? && !s.pc.Stopped? && !s.pc.Finish? && !s.stop
  }

  /** What a quiet step leaves: the tasks with their kinds, and the ticks, pending or consumed. */
  ghost predicate SameWorld(s: State, s': State) {
    && (forall t :: t in s'.tasks <==> t in s.tasks) && (forall t :: t in s.tasks ==> s'.tasks[t].kind == s.tasks[t].kind)
    && s'.hist.raised == s.hist.raised && s'.stop == s.stop && !s'.pc.Finish? && (s'.pc.Stopped? ==> s.stop)
    && s'.hist.consumed + Bit(s'.timer.flag == Some(true)) == s.hist.consumed + Bit(s.timer.flag == Some(true))
  }

  lemma {:induction false} FewerThan(q: seq<nat>, n: nat)
    requires Distinct(q) && forall t :: t in q ==> t < n
    ensures |q| <= n
    decreases n
  {
    assert q != [] ==> q[0] in q;
    if n > 0 {
      if k :| 0 <= k < |q| && q[k] == n - 1 {
        var rest := q[..k] + q[k + 1..];
        assert forall t :: t in rest ==> t in q;
        assert forall t :: t in rest ==> t != n - 1;
        FewerThan(rest, n - 1);
      } else {
        FewerThan(q, n - 1);
      }
    }
  }

  /** Who is woken by a pass is not queued, so there is room. */
  lemma WokenFindsRoom(s: State, n: nat, choice: Choice)
    requires Calm(s, n) && Woken(s, Step(choice)).Some?
    ensures var w := Woken(s, Step(choice)).value; w !in s.ready && w < n && |s.ready| < 100
  {
    hide AwakeInv, TimingInv;
    var w := Woken(s, Step(choice)).value;
    assert Registered(s, w) && IsSleeping(s, w) && Tokens(s, w) == 1;
    assert w in s.ready <==> multiset(s.ready)[w] > 0;
    FewerThan(s.ready + [w], n);
  }

  lemma NoSecondStream(s: State, n: nat, choice: Choice)
    requires Calm(s, n)
    ensures !SecondStream(s, Step(choice))
  {
    hide AwakeInv, SleepInv, TimingInv;
  }

  lemma QuietKeepsRoom(s: State, n: nat, ms: nat)
    requires Calm(s, n)
    ensures var s' := Next(s, Step(SleepFor(ms)));
            !s'.pc.Panicked? && Distinct(s'.ready) && forall t :: t in s'.ready ==> t < n
  {
    hide AwakeInv, SleepInv, TimingInv, Internal, SecondStream, Woken;
    var a := Step(SleepFor(ms));
    ServedInOrder(s, a);
    NoSecondStream(s, n, SleepFor(ms));
    if Woken(s, a).Some? {
      WokenFindsRoom(s, n, SleepFor(ms));
    }
    StaysDistinct(s.ready, Serves(s, a), Woken(s, a), n);
  }

  lemma StaysDistinct(q: seq<TaskId>, serves: bool, woken: Option<TaskId>, n: nat)
    requires Distinct(q) && (forall t :: t in q ==> t < n) && (serves ==> q != [])
    requires woken.Some? ==> woken.value !in q && woken.value < n
    ensures var q' := (if serves then q[1..] else q) + (if woken.Some? then [woken.value] else []);
            Distinct(q') && forall t :: t in q' ==> t < n
  {
    var left := if serves then q[1..] else q;
    assert forall t :: t in left ==> t in q;
  }

  lemma TaskKeepsWorld(s: State, ms: nat)
    requires InTask(s.pc) && !s.pc.Finish? && s.pc.id in s.tasks
    ensures SameWorld(s, Internal(s, SleepFor(ms)))
  {
    hide TimerStep, DecrementStep, KeyStep, PollStep, PopStep;
  }

  lemma TimerKeepsWorld(s: State, ms: nat)
    requires s.pc.TimerFirst? || s.pc.TimerRegister? || s.pc.TimerSecond? || s.pc.TimerTake?
    ensures SameWorld(s, Internal(s, SleepFor(ms)))
  {
    hide SortedKeysBelow, TaskStep, DecrementStep, KeyStep, PollStep, PopStep;
  }

  lemma PassKeepsWorld(s: State, ms: nat)
    requires s.pc.Decrement? || s.pc.WakeSleeper?
    ensures SameWorld(s, Internal(s, SleepFor(ms)))
  {
    hide SameWorld, DecrementStep;
    PassFrame(s);
    SameWorldFrom(s, DecrementStep(s));
  }

  lemma PassFrame(s: State)
    requires s.pc.Decrement? || s.pc.WakeSleeper?
    ensures var s' := DecrementStep(s);
            && s'.tasks == s.tasks && s'.timer == s.timer && s'.hist.consumed == s.hist.consumed && s'.hist.raised == s.hist.raised
            && s'.stop == s.stop && !s'.pc.Finish? && !s'.pc.Stopped?
  {
  }

  lemma SameWorldFrom(s: State, s': State)
    requires s'.tasks == s.tasks && s'.timer == s.timer && s'.hist.consumed == s.hist.consumed && s'.hist.raised == s.hist.raised
    requires s'.stop == s.stop && !s'.pc.Finish? && !s'.pc.Stopped?
    ensures SameWorld(s, s')
  {
  }

  lemma KeyKeepsWorld(s: State, ms: nat)
    requires InKey(s.pc)
    ensures SameWorld(s, Internal(s, SleepFor(ms)))
  {
    hide SortedKeysBelow, TaskStep, DecrementStep, TimerStep, PollStep, PopStep;
  }

  lemma PollKeepsWorld(s: State, ms: nat)
    requires s.pc.Poll?
    ensures SameWorld(s, Internal(s, SleepFor(ms)))
  {
    hide SortedKeysBelow, TaskStep, DecrementStep, KeyStep, TimerStep, PopStep;
  }

  lemma LoopKeepsWorld(s: State, ms: nat)
    requires s.pc.LoopHead? || s.pc.PopReady? || s.pc.Idle? || s.pc.IdleCheck? || s.pc.Halted?
    ensures SameWorld(s, Internal(s, SleepFor(ms)))
  {
    hide SortedKeysBelow, TaskStep, DecrementStep, KeyStep, TimerStep, PollStep;
  }

  lemma QuietKeepsWorld(s: State, n: nat, ms: nat)
    requires Calm(s, n)
    ensures SameWorld(s, Next(s, Step(SleepFor(ms))))
  {
    hide Streams, TimerAwake, KeyAwake, SleepInv, TimingInv, Internal, Roomy, OneOfEach, SameWorld;
    if InTask(s.pc) {
      TaskKeepsWorld(s, ms);
    } else if s.pc.Decrement? || s.pc.WakeSleeper? {
      PassKeepsWorld(s, ms);
    } else if InTimer(s.pc) {
      TimerKeepsWorld(s, ms);
    } else if InKey(s.pc) {
      KeyKeepsWorld(s, ms);
    } else if s.pc.Poll? {
      PollKeepsWorld(s, ms);
    } else {
      LoopKeepsWorld(s, ms);
    }
  }

  lemma QuietKeepsCalm(s: State, n: nat, ms: nat)
    requires Calm(s, n)
    ensures var s' := Next(s, Step(SleepFor(ms))); Calm(s', n) && SameWorld(s, s')
  {
    hide AwakeInv, SleepInv, TimingInv, Next;
    NextKeepsTiming(s, Step(SleepFor(ms)));
    QuietKeepsRoom(s, n, ms);
    QuietKeepsWorld(s, n, ms);
  }

  lemma {:induction false} QuietRunKeepsCalm(s: State, n: nat, ms: nat, k: nat)
    requires Calm(s, n)
    ensures Calm(Run(s, Quiet(k, ms)), n) && (k > 0 ==> SameWorld(s, Run(s, Quiet(k, ms))))
    decreases k
  {
    hide Calm, Next;
    if k > 0 {
      QuietStep(s, k - 1, ms);
      QuietKeepsCalm(s, n, ms);
      QuietRunKeepsCalm(Next(s, Step(SleepFor(ms))), n, ms, k - 1);
    }
  }

  /** In a calm state the processor halts, if no interrupt comes in between. */
  lemma Halts(s: State, n: nat, ms: nat) returns (k: nat)
    requires Calm(s, n)
    ensures var s' := Run(s, Quiet(k, ms)); Calm(s', n) && s'.pc.Halted? && (k > 0 ==> SameWorld(s, s'))
  {
    hide AwakeInv, SleepInv, TimingInv, OneOfEach, Roomy, Run, Quiet, SameWorld;
    k := ComesToRest(s, ms);
    QuietRunKeepsCalm(s, n, ms, k);
  }

  // ---- Sleeps end ------------------------------------------------------------------------------------

  /** Task `t` awaits sleep `i` of `period` ticks, registered when `before` had been consumed. */
  ghost predicate AwaitsSince(s: State, t: TaskId, i: SleepId, period: nat, before: nat) {
    && t in s.tasks && s.tasks[t].awaits == Some(i) && i in s.hist.sleeps
    && s.hist.sleeps[i].period == period && s.hist.sleeps[i].consumedBefore == before
  }

  lemma TaskStillAwaits(s: State, ms: nat, t: TaskId, i: SleepId, period: nat, before: nat)
    requires Control(s) && SleepsOwned(s) && Countdown(s) && InTask(s.pc) && !s.pc.Finish?
    requires AwaitsSince(s, t, i, period, before) && s.hist.consumed - before < period
    ensures AwaitsSince(Internal(s, SleepFor(ms)), t, i, period, before)
  {
    hide TimerStep, DecrementStep, KeyStep, PollStep, PopStep;
    assert CountsDown(s, i);
  }

  lemma PassStillAwaits(s: State, ms: nat, t: TaskId, i: SleepId, period: nat, before: nat)
    requires (s.pc.Decrement? || s.pc.WakeSleeper?) && AwaitsSince(s, t, i, period, before)
    ensures AwaitsSince(Internal(s, SleepFor(ms)), t, i, period, before)
  {
    hide SortedKeysBelow, TaskStep, TimerStep, KeyStep, PollStep, PopStep;
  }

  lemma OthersStillAwait(s: State, ms: nat, t: TaskId, i: SleepId, period: nat, before: nat)
    requires !InTask(s.pc) && !s.pc.Decrement? && !s.pc.WakeSleeper? && AwaitsSince(s, t, i, period, before)
    ensures AwaitsSince(Internal(s, SleepFor(ms)), t, i, period, before)
  {
    hide SortedKeysBelow, TaskStep, DecrementStep;
  }

  /** As long as a sleep has ticks to come, its task goes on awaiting it. */
  lemma StillAwaits(s: State, n: nat, ms: nat, t: TaskId, i: SleepId, period: nat, before: nat)
    requires Calm(s, n) && AwaitsSince(s, t, i, period, before)
    requires s.hist.consumed + Bit(s.timer.flag == Some(true)) - before < period
    ensures AwaitsSince(Next(s, Step(SleepFor(ms))), t, i, period, before)
  {
    hide Control, Streams, TimerAwake, KeyAwake, SleepsOwned, OneToken, TicksLeft, Internal, Roomy, OneOfEach, AwaitsSince, Countdown;
    if InTask(s.pc) {
      TaskStillAwaits(s, ms, t, i, period, before);
    } else if s.pc.Decrement? || s.pc.WakeSleeper? {
      PassStillAwaits(s, ms, t, i, period, before);
    } else {
      OthersStillAwait(s, ms, t, i, period, before);
    }
  }

  lemma {:induction false} QuietRunStillAwaits(s: State, n: nat, ms: nat, k: nat, t: TaskId, i: SleepId, period: nat, before: nat)
    requires Calm(s, n) && AwaitsSince(s, t, i, period, before)
    requires s.hist.consumed + Bit(s.timer.flag == Some(true)) - before < period
    ensures AwaitsSince(Run(s, Quiet(k, ms)), t, i, period, before)
    decreases k
  {
    hide Calm, Next, AwaitsSince;
    if k > 0 {
      QuietStep(s, k - 1, ms);
      QuietKeepsCalm(s, n, ms);
      StillAwaits(s, n, ms, t, i, period, before);
      QuietRunStillAwaits(Next(s, Step(SleepFor(ms))), n, ms, k - 1, t, i, period, before);
    }
  }

  ghost predicate HasTimer(s: State) { exists u :: u in s.tasks && s.tasks[u].kind.TimerLoop? }

  /** A timer interrupt in a halted state queues the timer task for a tick. */
  lemma InterruptKeepsCalm(s: State, n: nat)
    requires Calm(s, n) && s.pc.Halted? && HasTimer(s)
    ensures var s' := Next(s, TimerInterrupt);
            && Calm(s', n) && s'.timer.flag == Some(true) && s'.tasks == s.tasks && s'.hist.consumed == s.hist.consumed
            && s'.hist.sleeps == s.hist.sleeps && s.timer.flag == Some(false)
  {
    hide SleepInv, TimingInv, OneOfEach;
    NextKeepsTiming(s, TimerInterrupt);
    HaltedMeansParked(s);
    var u :| u in s.tasks && s.tasks[u].kind.TimerLoop?;
    assert s.timer.waker == Some(u) && s.timer.flag == Some(false);
    var s' := Next(s, TimerInterrupt);
    assert s'.ready == [u];
    SameTasksOneOfEach(s, s');
  }

  lemma SameTasksOneOfEach(s: State, s': State)
    requires OneOfEach(s) && s'.tasks == s.tasks
    ensures OneOfEach(s')
  {
  }

  /** In a halted state every sleep that is awaited has ticks left, as many as its record says. */
  lemma HaltedSleep(s: State, n: nat, t: TaskId, i: SleepId)
    requires Calm(s, n) && s.pc.Halted? && t in s.tasks && s.tasks[t].awaits == Some(i)
    ensures i in s.hist.sleeps && i in s.manager.sleepers
    ensures var r := s.hist.sleeps[i];
            AwaitsSince(s, t, i, r.period, r.consumedBefore) && s.manager.sleepers[i].ticks == r.period - (s.hist.consumed - r.consumedBefore) > 0
  {
    hide OneOfEach, Roomy, TimerAwake, KeyAwake, Streams;
    WaitingOnTime(s, t, i);
  }

  /** One round: every sleep that is awaited loses a tick, and one that had only one left is over. */
  ghost predicate OneTickLess(s: State, s': State) {
    forall t, i :: t in s.tasks && s.tasks[t].awaits == Some(i) ==> TickLess(s, s', t, i)
  }

  ghost predicate TickLess(s: State, s': State, t: TaskId, i: SleepId) {
    && i in s.manager.sleepers && t in s'.tasks
    && if s.manager.sleepers[i].ticks > 1
       then s'.tasks[t].awaits == Some(i) && i in s'.manager.sleepers && s'.manager.sleepers[i].ticks == s.manager.sleepers[i].ticks - 1
       else s'.tasks[t].awaits != Some(i)
  }

  /** In a halted state, a timer interrupt and the time to halt again take one tick from every sleep. */
  lemma TickRound(s: State, n: nat, ms: nat) returns (k: nat)
    requires Calm(s, n) && s.pc.Halted? && HasTimer(s)
    ensures var s' := Run(Next(s, TimerInterrupt), Quiet(k, ms));
            Calm(s', n) && s'.pc.Halted? && HasTimer(s') && s'.hist.consumed == s.hist.consumed + 1 && OneTickLess(s, s')
  {
    hide Calm, Run, Quiet, Next, AwaitsSince;
    var s1 := Next(s, TimerInterrupt);
    InterruptKeepsCalm(s, n);
    k := Halts(s1, n, ms);
    var s' := Run(s1, Quiet(k, ms));
    FlagClearWhenHalted(s', n);
    assert k > 0 by {
      if k == 0 {
        assert s' == s1 by { RunNothing(s1, ms); }
      }
    }
    forall t, i | t in s.tasks && s.tasks[t].awaits == Some(i) ensures TickLess(s, s', t, i) {
      SleepAfterRound(s, n, ms, k, t, i);
    }
  }

  lemma RunNothing(s: State, ms: nat)
    ensures Run(s, Quiet(0, ms)) == s
  {
  }

  lemma FlagClearWhenHalted(s: State, n: nat)
    requires Calm(s, n) && s.pc.Halted?
    ensures s.timer.flag != Some(true)
  {
    hide TimingInv, OneOfEach, Roomy;
    HaltedMeansParked(s);
  }

  lemma SleepAfterRound(s: State, n: nat, ms: nat, k: nat, t: TaskId, i: SleepId)
    requires Calm(s, n) && s.pc.Halted? && HasTimer(s) && t in s.tasks && s.tasks[t].awaits == Some(i)
    requires var s' := Run(Next(s, TimerInterrupt), Quiet(k, ms));
             Calm(s', n) && s'.pc.Halted? && s'.hist.consumed == s.hist.consumed + 1 && t in s'.tasks
    ensures TickLess(s, Run(Next(s, TimerInterrupt), Quiet(k, ms)), t, i)
  {
    hide Calm, Run, Quiet, Next;
    var s1 := Next(s, TimerInterrupt);
    var s' := Run(s1, Quiet(k, ms));
    InterruptKeepsCalm(s, n);
    HaltedSleep(s, n, t, i);
    var r := s.hist.sleeps[i];
    if s.manager.sleepers[i].ticks > 1 {
      QuietRunStillAwaits(s1, n, ms, k, t, i, r.period, r.consumedBefore);
      HaltedSleep(s', n, t, i);
    } else if s'.tasks[t].awaits == Some(i) {
      HaltedSleep(s', n, t, i);
      assert RecordOf(s', i, r.period, r.consumedBefore) by {
        OldSleep(s, n, i, s1);
        RecordKept(s1, ms, k, i, r.period, r.consumedBefore);
      }
    }
  }

  /** The record of a sleep that was registered some time ago. */
  ghost predicate RecordOf(s: State, i: SleepId, period: nat, before: nat) {
    i < s.manager.nextId && i in s.hist.sleeps && s.hist.sleeps[i].period == period && s.hist.sleeps[i].consumedBefore == before
  }

  lemma OldSleep(s: State, n: nat, i: SleepId, s1: State)
    requires Calm(s, n) && s.pc.Halted? && HasTimer(s) && s1 == Next(s, TimerInterrupt) && i in s.manager.sleepers && i in s.hist.sleeps
    ensures RecordOf(s1, i, s.hist.sleeps[i].period, s.hist.sleeps[i].consumedBefore)
  {
    hide AwakeInv, TimingInv, OneOfEach, Roomy, OneToken, TicksLeft;
  }

  lemma TaskKeepsRecord(s: State, ms: nat, i: SleepId, period: nat, before: nat)
    requires InTask(s.pc) && RecordOf(s, i, period, before)
    ensures RecordOf(Internal(s, SleepFor(ms)), i, period, before)
  {
    hide TimerStep, DecrementStep, KeyStep, PollStep, PopStep;
  }

  lemma PassKeepsRecord(s: State, ms: nat, i: SleepId, period: nat, before: nat)
    requires (s.pc.Decrement? || s.pc.WakeSleeper?) && RecordOf(s, i, period, before)
    ensures RecordOf(Internal(s, SleepFor(ms)), i, period, before)
  {
    hide SortedKeysBelow, TaskStep, TimerStep, KeyStep, PollStep, PopStep;
  }

  lemma OthersKeepRecord(s: State, ms: nat, i: SleepId, period: nat, before: nat)
    requires !InTask(s.pc) && !s.pc.Decrement? && !s.pc.WakeSleeper? && RecordOf(s, i, period, before)
    ensures RecordOf(Internal(s, SleepFor(ms)), i, period, before)
  {
    hide SortedKeysBelow, TaskStep, DecrementStep;
  }

  lemma {:induction false} RecordKept(s: State, ms: nat, k: nat, i: SleepId, period: nat, before: nat)
    requires RecordOf(s, i, period, before)
    ensures RecordOf(Run(s, Quiet(k, ms)), i, period, before)
    decreases k
  {
    hide RecordOf, Internal;
    if k > 0 {
      QuietStep(s, k - 1, ms);
      if InTask(s.pc) {
        TaskKeepsRecord(s, ms, i, period, before);
      } else if s.pc.Decrement? || s.pc.WakeSleeper? {
        PassKeepsRecord(s, ms, i, period, before);
      } else {
        OthersKeepRecord(s, ms, i, period, before);
      }
      RecordKept(Next(s, Step(SleepFor(ms))), ms, k - 1, i, period, before);
    }
  }

  function TimerInterrupts(actions: seq<Action>): nat {
    if actions == [] then 0 else (if actions[0].TimerInterrupt? then 1 else 0) + TimerInterrupts(actions[1..])
  }

  lemma {:induction false} RunInTwo(s: State, a: seq<Action>, b: seq<Action>)
    ensures Run(s, a + b) == Run(Run(s, a), b)
    ensures TimerInterrupts(a + b) == TimerInterrupts(a) + TimerInterrupts(b)
    decreases |a|
  {
    hide Next;
    if a == [] {
      assert a + b == b;
    } else {
      assert (a + b)[1..] == a[1..] + b;
      RunInTwo(Next(s, a[0]), a[1..], b);
    }
  }

  lemma {:induction false} QuietHasNoInterrupts(k: nat, ms: nat)
    ensures TimerInterrupts(Quiet(k, ms)) == 0
    decreases k
  {
    if k > 0 {
      assert Quiet(k, ms)[1..] == Quiet(k - 1, ms);
      QuietHasNoInterrupts(k - 1, ms);
    }
  }

  lemma RoundOfActions(s: State, k: nat, ms: nat)
    ensures Run(s, [TimerInterrupt] + Quiet(k, ms)) == Run(Next(s, TimerInterrupt), Quiet(k, ms))
    ensures TimerInterrupts([TimerInterrupt] + Quiet(k, ms)) == 1
  {
    hide Next;
    QuietHasNoInterrupts(k, ms);
    RunInTwo(s, [TimerInterrupt], Quiet(k, ms));
    assert Run(s, [TimerInterrupt]) == Next(s, TimerInterrupt);
  }

  /** What is left of sleep `i` of task `t` after `j` of its `ticks`. */
  ghost predicate SleepLeft(s: State, t: TaskId, i: SleepId, ticks: nat, j: nat) {
    && t in s.tasks
    && if j < ticks then s.tasks[t].awaits == Some(i) && i in s.manager.sleepers && s.manager.sleepers[i].ticks == ticks - j
       else s.tasks[t].awaits != Some(i)
  }

  /** A task asleep with some ticks left sleeps on through fewer timer interrupts than that, each with
      the time to halt again, and not beyond that many. */
  lemma {:induction false} SleepLasts(s: State, n: nat, ms: nat, t: TaskId, i: SleepId, j: nat) returns (actions: seq<Action>)
    requires Calm(s, n) && s.pc.Halted? && HasTimer(s) && t in s.tasks && s.tasks[t].awaits == Some(i)
    requires i in s.manager.sleepers && j <= s.manager.sleepers[i].ticks
    ensures TimerInterrupts(actions) == j
    ensures var s' := Run(s, actions);
            Calm(s', n) && s'.pc.Halted? && SleepLeft(s', t, i, s.manager.sleepers[i].ticks, j)
    decreases j
  {
    hide Calm, Run, Quiet, Next, HasTimer, TimerInterrupts;
    HaltedSleep(s, n, t, i);
    if j == 0 {
      actions := [];
      assert Run(s, []) == s && TimerInterrupts([]) == 0 by { NoActions(s); }
    } else {
      var k := TickRound(s, n, ms);
      RoundOfActions(s, k, ms);
      var round := [TimerInterrupt] + Quiet(k, ms);
      var s1 := Run(s, round);
      assert TickLess(s, s1, t, i);
      if s.manager.sleepers[i].ticks == 1 {
        actions := round;
      } else {
        var rest := SleepLasts(s1, n, ms, t, i, j - 1);
        actions := round + rest;
        RunInTwo(s, round, rest);
      }
    }
  }

  lemma NoActions(s: State)
    ensures Run(s, []) == s && TimerInterrupts([]) == 0
  {
  }

  /** Whenever the processor is halted, every scancode that was accepted has been handed over. */
  lemma HaltedTookAll(kinds: seq<Kind>, actions: seq<Action>)
    ensures var s := Run(Boot(kinds), actions); s.pc.Halted? ==> s.hist.taken == s.hist.accepted
  {
    hide Run, Boot, AllParked;
    ScancodesConserved(kinds, actions);
    NoLostWakeup(kinds, actions);
  }

  // ---- From boot -------------------------------------------------------------------------------------

  /** At most a hundred tasks and at most one of either stream kind. */
  ghost predicate GoodKinds(kinds: seq<Kind>) {
    |kinds| <= 100 && forall i, j :: 0 <= i < j < |kinds| && kinds[i] == kinds[j] ==> kinds[i].Sleeping?
  }

  lemma BootIsCalm(kinds: seq<Kind>)
    requires GoodKinds(kinds)
    ensures Calm(Boot(kinds), |kinds|)
  {
    hide AwakeInv, SleepInv, TimingInv, Boot;
    BootSpawns(kinds);
    ReachableInv(kinds, []);
    assert Run(Boot(kinds), []) == Boot(kinds);
  }

  /** Every sleep has this period and no tick was ever consumed. */
  ghost predicate AllFresh(s: State, period: nat) {
    s.hist.raised == 0 && s.timer.flag != Some(true) && forall i :: i in s.hist.sleeps ==> s.hist.sleeps[i].period == period
  }

  lemma TaskKeepsFresh(s: State, ms: nat)
    requires InTask(s.pc) && AllFresh(s, TicksFor(ms))
    ensures AllFresh(Internal(s, SleepFor(ms)), TicksFor(ms))
  {
    hide TimerStep, DecrementStep, KeyStep, PollStep, PopStep;
  }

  lemma PassKeepsFresh(s: State, ms: nat, period: nat)
    requires (s.pc.Decrement? || s.pc.WakeSleeper?) && AllFresh(s, period)
    ensures AllFresh(Internal(s, SleepFor(ms)), period)
  {
    hide SortedKeysBelow, TaskStep, TimerStep, KeyStep, PollStep, PopStep;
  }

  lemma OthersKeepFresh(s: State, ms: nat, period: nat)
    requires !InTask(s.pc) && !s.pc.Decrement? && !s.pc.WakeSleeper? && AllFresh(s, period)
    ensures AllFresh(Internal(s, SleepFor(ms)), period)
  {
    hide SortedKeysBelow, TaskStep, DecrementStep;
  }

  lemma {:induction false} QuietRunKeepsFresh(s: State, ms: nat, k: nat)
    requires AllFresh(s, TicksFor(ms))
    ensures AllFresh(Run(s, Quiet(k, ms)), TicksFor(ms))
    decreases k
  {
    hide AllFresh, Internal, TicksFor;
    if k > 0 {
      QuietStep(s, k - 1, ms);
      if InTask(s.pc) {
        TaskKeepsFresh(s, ms);
      } else if s.pc.Decrement? || s.pc.WakeSleeper? {
        PassKeepsFresh(s, ms, TicksFor(ms));
      } else {
        OthersKeepFresh(s, ms, TicksFor(ms));
      }
      QuietRunKeepsFresh(Next(s, Step(SleepFor(ms))), ms, k - 1);
    }
  }

  /** What booting comes to: the processor halts with every task alive and parked, each sleeping task
      in its first sleep. */
  ghost predicate Parked(s: State, kinds: seq<Kind>, ms: nat) {
    && s.pc.Halted? && AllParked(s) && (forall t: TaskId :: t in s.tasks <==> t < |kinds|)
    && forall t :: t in s.tasks ==> s.tasks[t].kind == kinds[t] && (kinds[t].Sleeping? ==> FirstSleep(s, t, ms))
  }

  ghost predicate FirstSleep(s: State, t: TaskId, ms: nat) {
    && t in s.tasks && s.tasks[t].awaits.Some? && s.tasks[t].awaits.value in s.manager.sleepers
    && s.manager.sleepers[s.tasks[t].awaits.value].ticks == if ms / 4 == 0 then 1 else ms / 4
  }

  /** From boot, with at most a hundred tasks and no two streams of a kind, the processor halts with
      every task parked. */
  lemma BootHalts(kinds: seq<Kind>, ms: nat) returns (k: nat)
    requires GoodKinds(kinds)
    ensures var s := Run(Boot(kinds), Quiet(k, ms)); Calm(s, |kinds|) && Parked(s, kinds, ms)
  {
    hide Calm, Run, Quiet, Boot, JustSpawned, AllParked, FirstSleep;
    var s0 := Boot(kinds);
    BootIsCalm(kinds);
    k := Halts(s0, |kinds|, ms);
    var s := Run(s0, Quiet(k, ms));
    StartIsFresh(s0, kinds, TicksFor(ms));
    QuietRunKeepsFresh(s0, ms, k);
    CalmIsParked(s, |kinds|);
    assert k > 0 by {
      if k == 0 {
        assert s == s0 by { RunNothing(s0, ms); }
      }
    }
    forall t | t in s.tasks && kinds[t].Sleeping? ensures FirstSleep(s, t, ms) {
      FirstTicks(s, |kinds|, t, ms);
    }
  }

  lemma StartIsFresh(s: State, kinds: seq<Kind>, period: nat)
    requires |kinds| <= 100 && s == Boot(kinds)
    ensures AllFresh(s, period) && s.pc.LoopHead? && (forall t: TaskId :: t in s.tasks <==> t < |kinds|)
    ensures forall t :: t in s.tasks ==> s.tasks[t].kind == kinds[t]
  {
    BootSpawns(kinds);
    BootHistory(kinds);
  }

  lemma CalmIsParked(s: State, n: nat)
    requires Calm(s, n) && s.pc.Halted?
    ensures AllParked(s)
  {
    hide TimingInv, OneOfEach, Roomy;
    HaltedMeansParked(s);
  }

  lemma FirstTicks(s: State, n: nat, t: TaskId, ms: nat)
    requires Calm(s, n) && s.pc.Halted? && AllFresh(s, TicksFor(ms)) && t in s.tasks && s.tasks[t].kind.Sleeping?
    ensures FirstSleep(s, t, ms)
  {
    hide OneOfEach, Roomy, TimerAwake, KeyAwake, Streams, Countdown, FiredOnce, SleepsOwned, TicksLeft;
    CalmIsParked(s, n);
    assert Registered(s, t);
    HaltedSleep(s, n, t, s.tasks[t].awaits.value);
    assert RecordRaised(s, s.hist.sleeps[s.tasks[t].awaits.value]);
  }

  /** sleep_for(ms) from boot on: with the timer running, the task sleeps through fewer than
      max(1, ms / 4) timer interrupts, each with the time to halt again, and no longer. */
  lemma SleepsOnTime(kinds: seq<Kind>, ms: nat, t: TaskId, j: nat) returns (k: nat, i: SleepId, actions: seq<Action>)
    requires GoodKinds(kinds) && TimerLoop in kinds && t < |kinds| && kinds[t].Sleeping? && j <= if ms / 4 == 0 then 1 else ms / 4
    ensures TimerInterrupts(actions) == j
    ensures var s := Run(Boot(kinds), Quiet(k, ms) + actions);
            s.pc.Halted? && SleepLeft(s, t, i, if ms / 4 == 0 then 1 else ms / 4, j)
  {
    hide Calm, Run, Quiet, Boot, TimerInterrupts, SleepLeft, AllParked;
    k := BootHalts(kinds, ms);
    var s := Run(Boot(kinds), Quiet(k, ms));
    assert FirstSleep(s, t, ms);
    i := s.tasks[t].awaits.value;
    var u :| 0 <= u < |kinds| && kinds[u] == TimerLoop;
    assert u in s.tasks;
    actions := SleepLasts(s, |kinds|, ms, t, i, j);
    RunInTwo(Boot(kinds), Quiet(k, ms), actions);
  }
}
